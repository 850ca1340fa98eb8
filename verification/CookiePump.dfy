/** The helper thread that pumps bytes between a cookie's callbacks and a pipe, for
    fopencookie and funopen, and the two parties it runs against. */
module CookiePump {
  import opened Bytes

  const BUFSIZE: nat := 1024

  // ---------- The pump by itself ----------

  /** Outcome of a system call or callback: Data([]) is end of file, Wrote(0) a write that takes nothing. */
  datatype Outcome = Interrupted | Failed | Data(bytes: seq<Byte>) | Wrote(count: nat)

  datatype Phase = Reading | Writing | Exited(atEof: bool)

  /** hold is the part of the buffer that has not been written yet. */
  datatype Pump = Pump(phase: Phase, hold: seq<Byte>)

  /** The outcome is one the pump's next call can have. */
  predicate Fits(p: Pump, c: Outcome)
  {
    match p.phase
    case Reading => c.Interrupted? || c.Failed? || (c.Data? && |c.bytes| <= BUFSIZE)
    case Writing => c.Interrupted? || c.Failed? || (c.Wrote? && c.count <= |p.hold|)
    case Exited(_) => false
  }

  function Step(p: Pump, c: Outcome): Pump
    requires Fits(p, c)
  {
    match p.phase
    case Reading =>
      (match c
       case Interrupted => p
       case Failed => Pump(Exited(false), [])
       case Data(bytes) => if bytes == [] then Pump(Exited(true), []) else Pump(Writing, bytes))
    case Writing =>
      (match c
       case Interrupted => p
       case Failed => Pump(Exited(false), p.hold)
       case Wrote(count) =>
         if count == 0 then Pump(Exited(false), p.hold)
         else if count == |p.hold| then Pump(Reading, [])
         else Pump(Writing, p.hold[count..]))
  }

  /** The thread exits on a failed call, on a write that takes nothing, and at end of file, and only then. */
  lemma EndsExactly(p: Pump, c: Outcome)
    requires Fits(p, c)
    ensures Step(p, c).phase.Exited? <==> c == Failed || c == Wrote(0) || c == Data([])
    ensures Step(p, c).phase == Exited(true) <==> c == Data([])
  {
  }

  function Took(p: Pump, c: Outcome): seq<Byte>
    requires Fits(p, c)
  {
    if c.Data? then c.bytes else []
  }

  function Gave(p: Pump, c: Outcome): seq<Byte>
    requires Fits(p, c)
  {
    if c.Wrote? then p.hold[..c.count] else []
  }

  /** The pump after a list of outcomes, with all bytes it has taken and given. */
  datatype Trace = Trace(pump: Pump, taken: seq<Byte>, given: seq<Byte>)

  const START: Trace := Trace(Pump(Reading, []), [], [])

  function Advance(t: Trace, c: Outcome): Trace
    requires Fits(t.pump, c)
  {
    Trace(Step(t.pump, c), t.taken + Took(t.pump, c), t.given + Gave(t.pump, c))
  }

  ghost predicate Runs(calls: seq<Outcome>, t: Trace)
    decreases |calls|
  {
    if calls == [] then t == START
    else
      var last := calls[|calls| - 1];
      exists s :: Runs(calls[..|calls| - 1], s) && Fits(s.pump, last) && t == Advance(s, last)
  }

  lemma RunsStep(calls: seq<Outcome>, s: Trace, c: Outcome)
    requires Runs(calls, s) && Fits(s.pump, c)
    ensures Runs(calls + [c], Advance(s, c))
  {
    assert (calls + [c])[..|calls|] == calls;
  }

  /** Nothing is lost, repeated or reordered inside the pump. */
  ghost predicate Conserves(t: Trace)
  {
    && t.taken == t.given + t.pump.hold
    && (t.pump.phase.Reading? ==> t.pump.hold == [])
    && (t.pump.phase.Writing? ==> t.pump.hold != [])
    && |t.pump.hold| <= BUFSIZE
    && (t.pump.phase == Exited(true) ==> t.pump.hold == [])
  }

  lemma AdvanceConserves(t: Trace, c: Outcome)
    requires Conserves(t) && Fits(t.pump, c)
    ensures Conserves(Advance(t, c))
  {
    if c.Wrote? {
      assert t.pump.hold == t.pump.hold[..c.count] + t.pump.hold[c.count..];
    }
  }

  lemma {:induction false} PumpConserves(calls: seq<Outcome>, t: Trace)
    requires Runs(calls, t)
    ensures Conserves(t)
    decreases |calls|
  {
    hide Conserves, Fits, Advance;
    if calls == [] {
      StartConserves();
    } else {
      var last := calls[|calls| - 1];
      var s :| Runs(calls[..|calls| - 1], s) && Fits(s.pump, last) && t == Advance(s, last);
      PumpConserves(calls[..|calls| - 1], s);
      AdvanceConserves(s, last);
    }
  }

  lemma StartConserves()
    ensures Conserves(START)
  {
  }

  /** The outcomes are what the calls of the thread can return, as far as it gets. */
  ghost predicate Plausible(calls: seq<Outcome>)
  {
    forall i, s :: 0 <= i < |calls| && Runs(calls[..i], s) && !s.pump.phase.Exited? ==> Fits(s.pump, calls[i])
  }

  lemma NextRuns(calls: seq<Outcome>, used: nat, t: Trace)
    requires Plausible(calls) && used < |calls| && Runs(calls[..used], t) && !t.pump.phase.Exited?
    ensures Fits(t.pump, calls[used]) && Runs(calls[..used + 1], Advance(t, calls[used]))
  {
    assert calls[..used + 1] == calls[..used] + [calls[used]];
    RunsStep(calls[..used], t, calls[used]);
  }

  /** The loop of the thread, driven by the outcomes of its calls. It stops early only when the
      list of outcomes ends, as a thread does that is blocked in its next call. */
  method Proxy(buf: array<Byte>, calls: seq<Outcome>) returns (used: nat, ghost t: Trace, exited: bool)
    requires buf.Length == BUFSIZE && Plausible(calls)
    modifies buf
    ensures used <= |calls| && Runs(calls[..used], t)
    ensures exited <==> t.pump.phase.Exited?
    ensures !exited ==> used == |calls|
  {
    hide Plausible, Runs;
    used, exited, t := 0, false, START;
    NothingRun(calls);
    while used < |calls|
      invariant used <= |calls| && Runs(calls[..used], t) && t.pump == Pump(Reading, []) && !exited
      decreases |calls| - used
    {
      // read
      var c := calls[used];
      NextRuns(calls, used, t);
      t, used := Advance(t, c), used + 1;
      if c.Interrupted? {
        continue;
      }
      if c.Failed? || |c.bytes| == 0 {
        exited := true;
        return;
      }
      var n, k := |c.bytes|, 0;
      forall i | 0 <= i < n {
        buf[i] := c.bytes[i];
      }
      assert buf[0..n] == c.bytes;
      while n > 0 && used < |calls|
        invariant used <= |calls| && Runs(calls[..used], t) && !exited
        invariant k + n <= BUFSIZE
        invariant t.pump == if n > 0 then Pump(Writing, buf[k..k + n]) else Pump(Reading, [])
        decreases |calls| - used
      {
        // write
        var w := calls[used];
        NextRuns(calls, used, t);
        ghost var hold := buf[k..k + n];
        t, used := Advance(t, w), used + 1;
        if w.Interrupted? {
          continue;
        }
        if w.Failed? || w.count == 0 {
          exited := true;
          break;
        }
        n, k := n - w.count, k + w.count;
        assert buf[k..k + n] == hold[w.count..];
      }
      if n > 0 {
        return;
      }
    }
  }

  lemma NothingRun(calls: seq<Outcome>)
    ensures Runs(calls[..0], START)
  {
    assert calls[..0] == [];
  }

  // ---------- The pump between the application and the callback ----------

  /** Write mode: the application writes into the pipe, the pump hands the bytes to the callback.
      Read mode: the pump takes bytes from the callback, the application reads them from the pipe. */
  datatype Direction = ToCallback | FromCallback

  /** fed is all that the source has let go of so far, out all that has arrived at the sink. */
  datatype System = System(dir: Direction, fed: seq<Byte>, closed: bool, pipe: seq<Byte>, pump: Pump, out: seq<Byte>)

  datatype Event = AppWrites(bytes: seq<Byte>) | AppCloses | AppReads(count: nat) | PumpCalls(outcome: Outcome)

  /** The pump's end of the pipe yields what is in it, and end of file only when it is empty and
      closed; the callback may yield and take anything. */
  predicate CanHappen(s: System, e: Event)
  {
    match e
    case AppWrites(bytes) => s.dir.ToCallback? && !s.closed
    case AppCloses => s.dir.ToCallback? && !s.closed
    case AppReads(count) => s.dir.FromCallback? && count <= |s.pipe|
    case PumpCalls(c) =>
      && Fits(s.pump, c)
      && (s.dir.ToCallback? && c.Data? ==> c.bytes <= s.pipe && (c.bytes == [] ==> s.pipe == [] && s.closed))
  }

  function Apply(s: System, e: Event): System
    requires CanHappen(s, e)
  {
    match e
    case AppWrites(bytes) => s.(fed := s.fed + bytes, pipe := s.pipe + bytes)
    case AppCloses => s.(closed := true)
    case AppReads(count) => s.(out := s.out + s.pipe[..count], pipe := s.pipe[count..])
    case PumpCalls(c) =>
      var p := Step(s.pump, c);
      if s.dir.ToCallback? then
        s.(pump := p, pipe := if c.Data? then s.pipe[|c.bytes|..] else s.pipe, out := s.out + Gave(s.pump, c))
      else
        s.(pump := p, fed := s.fed + Took(s.pump, c), pipe := s.pipe + Gave(s.pump, c))
  }

  function Fresh(dir: Direction): System
  {
    System(dir, [], false, [], Pump(Reading, []), [])
  }

  /** s can be reached by the events, in this interleaving. */
  ghost predicate Leads(dir: Direction, events: seq<Event>, s: System)
    decreases |events|
  {
    if events == [] then s == Fresh(dir)
    else
      var last := events[|events| - 1];
      exists r :: Leads(dir, events[..|events| - 1], r) && CanHappen(r, last) && s == Apply(r, last)
  }

  function InFlight(s: System): seq<Byte>
  {
    if s.dir.ToCallback? then s.pump.hold + s.pipe else s.pipe + s.pump.hold
  }

  ghost predicate Sound(s: System)
  {
    && s.fed == s.out + InFlight(s)
    && (s.pump.phase.Reading? ==> s.pump.hold == [])
    && (s.pump.phase == Exited(true) ==> s.pump.hold == [] && (s.dir.ToCallback? ==> s.pipe == [] && s.closed))
  }

  /** The first count bytes of what is held go over to what is out. */
  lemma PartGoes(out: seq<Byte>, hold: seq<Byte>, pipe: seq<Byte>, count: nat)
    requires count <= |hold|
    ensures out + (hold + pipe) == (out + hold[..count]) + (hold[count..] + pipe)
  {
    assert hold == hold[..count] + hold[count..];
  }

  lemma PumpToCallbackSound(s: System, c: Outcome)
    requires Sound(s) && CanHappen(s, PumpCalls(c)) && s.dir.ToCallback?
    ensures Sound(Apply(s, PumpCalls(c)))
  {
    var t := Apply(s, PumpCalls(c));
    if c.Data? {
      assert s.pipe == c.bytes + s.pipe[|c.bytes|..];
      assert InFlight(t) == s.pipe;
    } else if c.Wrote? {
      assert t.pump.hold == s.pump.hold[c.count..];
      PartGoes(s.out, s.pump.hold, s.pipe, c.count);
    }
  }

  lemma PumpFromCallbackSound(s: System, c: Outcome)
    requires Sound(s) && CanHappen(s, PumpCalls(c)) && s.dir.FromCallback?
    ensures Sound(Apply(s, PumpCalls(c)))
  {
    var t := Apply(s, PumpCalls(c));
    if c.Data? {
      assert InFlight(t) == s.pipe + c.bytes;
      assert s.out + s.pipe + c.bytes == s.out + (s.pipe + c.bytes);
    } else if c.Wrote? {
      var h := s.pump.hold;
      assert t.pump.hold == h[c.count..];
      assert h == h[..c.count] + h[c.count..];
      assert InFlight(s) == InFlight(t);
    }
  }

  lemma ApplySound(s: System, e: Event)
    requires Sound(s) && CanHappen(s, e)
    ensures Sound(Apply(s, e))
  {
    match e
    case AppWrites(bytes) =>
      assert s.out + (s.pump.hold + s.pipe) + bytes == s.out + (s.pump.hold + (s.pipe + bytes));
    case AppCloses =>
    case AppReads(count) =>
      assert s.pipe == s.pipe[..count] + s.pipe[count..];
      assert s.out + InFlight(s) == (s.out + s.pipe[..count]) + (s.pipe[count..] + s.pump.hold);
    case PumpCalls(c) =>
      if s.dir.ToCallback? { PumpToCallbackSound(s, c); } else { PumpFromCallbackSound(s, c); }
  }

  lemma {:induction false} AlwaysSound(dir: Direction, events: seq<Event>, s: System)
    requires Leads(dir, events, s)
    ensures Sound(s) && s.dir == dir
    decreases |events|
  {
    hide Sound, CanHappen;
    if events == [] {
      FreshSound(dir);
    } else {
      var last := events[|events| - 1];
      var r :| Leads(dir, events[..|events| - 1], r) && CanHappen(r, last) && s == Apply(r, last);
      AlwaysSound(dir, events[..|events| - 1], r);
      ApplySound(r, last);
    }
  }

  lemma FreshSound(dir: Direction)
    ensures Sound(Fresh(dir))
  {
  }

  /** In every interleaving the sink has a prefix of what the source let go of. */
  lemma SinkIsPrefix(dir: Direction, events: seq<Event>, s: System)
    requires Leads(dir, events, s)
    ensures s.out <= s.fed
  {
    AlwaysSound(dir, events, s);
  }

  /** No call failed for another reason than an interrupt, and no write took nothing. */
  predicate ErrorFree(events: seq<Event>)
  {
    forall i :: 0 <= i < |events| ==> events[i] != PumpCalls(Failed) && events[i] != PumpCalls(Wrote(0))
  }

  lemma {:induction false} ErrorFreeExit(dir: Direction, events: seq<Event>, s: System)
    requires Leads(dir, events, s) && ErrorFree(events)
    ensures s.pump.phase != Exited(false)
    decreases |events|
  {
    if events != [] {
      var last := events[|events| - 1];
      var r :| Leads(dir, events[..|events| - 1], r) && CanHappen(r, last) && s == Apply(r, last);
      ErrorFreeExit(dir, events[..|events| - 1], r);
    }
  }

  /** When the pump has exited after an error-free run, everything has arrived: at the callback,
      or at the callback's other end, the application together with the pipe it reads from. */
  lemma ErrorFreeRunDeliversAll(dir: Direction, events: seq<Event>, s: System)
    requires Leads(dir, events, s) && ErrorFree(events) && s.pump.phase.Exited?
    ensures dir.ToCallback? ==> s.out == s.fed && s.closed
    ensures dir.FromCallback? ==> s.out + s.pipe == s.fed
  {
    AlwaysSound(dir, events, s);
    ErrorFreeExit(dir, events, s);
  }

  /** The events without the calls of the pump that a signal interrupted. */
  function Uninterrupted(events: seq<Event>): seq<Event>
  {
    if events == [] then []
    else
      var last := events[|events| - 1];
      Uninterrupted(events[..|events| - 1]) + if last == PumpCalls(Interrupted) then [] else [last]
  }

  /** Interruptions lose and repeat nothing: a run leads where it leads without the interrupted calls. */
  lemma {:induction false} InterruptsAreRetried(dir: Direction, events: seq<Event>, s: System)
    requires Leads(dir, events, s)
    ensures Leads(dir, Uninterrupted(events), s)
    decreases |events|
  {
    hide CanHappen, Apply;
    if events != [] {
      var front, last := events[..|events| - 1], events[|events| - 1];
      var r :| Leads(dir, front, r) && CanHappen(r, last) && s == Apply(r, last);
      InterruptsAreRetried(dir, front, r);
      if last == PumpCalls(Interrupted) {
        InterruptIsRetried(r);
        assert Uninterrupted(front) + [] == Uninterrupted(front);
      } else {
        LeadsStep(dir, Uninterrupted(front), r, last);
      }
    }
  }

  lemma LeadsStep(dir: Direction, events: seq<Event>, r: System, e: Event)
    requires Leads(dir, events, r) && CanHappen(r, e)
    ensures Leads(dir, events + [e], Apply(r, e))
  {
    hide CanHappen, Apply;
    var more := events + [e];
    assert more[..|more| - 1] == events && more[|more| - 1] == e;
    assert Leads(dir, more[..|more| - 1], r) && CanHappen(r, more[|more| - 1]);
  }

  lemma InterruptIsRetried(s: System)
    requires CanHappen(s, PumpCalls(Interrupted))
    ensures Apply(s, PumpCalls(Interrupted)) == s
  {
  }

  // ---------- Setting up the stream ----------

  datatype Setup =
    | Refused(errno: string)
    | Ready(appEnd: int, pumpEnd: int)
    | Aborted

  /** What the calls of the set-up return; pipe() yields two descriptors. */
  datatype Calls = Calls(malloc: bool, pipe: bool, fdopen: bool, thread: bool, readEnd: nat, writeEnd: nat)

  function At(mode: string, i: nat): char
  {
    if i < |mode| then mode[i] else '\0'
  }

  /** The descriptors the set-up has opened, if it gets that far. */
  function Opened(c: Calls): multiset<int>
  {
    if c.malloc && c.pipe then multiset{c.readEnd, c.writeEnd} else multiset{}
  }

  lemma ModeChars(mode: string)
    requires '\0' !in mode && |mode| > 0
    ensures At(mode, 1) == '\0' ==> mode == [mode[0]]
    ensures At(mode, 1) == '+' && At(mode, 2) == '\0' <==> mode == [mode[0], '+']
    ensures mode == [mode[0]] + mode[1..]
  {
    if |mode| > 1 { assert mode[1] in mode; }
    if |mode| > 2 { assert mode[2] in mode; }
  }

  function One(fd: int): multiset<int>
  {
    if fd >= 0 then multiset{fd} else multiset{}
  }

  /** The clean-up at the end of both functions: close what is still open, and the stream. */
  method CloseAll(p0: int, p1: int, f: int) returns (closed: seq<int>)
    ensures multiset(closed) == One(p0) + One(p1) + One(f)
  {
    closed := [];
    if p0 >= 0 { closed := closed + [p0]; }
    if p1 >= 0 { closed := closed + [p1]; }
    if f >= 0 { closed := closed + [f]; }
  }

  predicate IsMode(mode: string)
  {
    mode == "r" || mode == "w" || mode == "a"
  }

  /** The errno for a mode that is not one of the three. */
  function ModeErrno(mode: string): string
  {
    if mode == "r+" || mode == "w+" || mode == "a+" then "ENOTSUP" else "EINVAL"
  }

  /** The application gets the read end of the pipe in read mode, the write end otherwise. */
  function AppIndex(mode: string): nat
  {
    if mode == "r" then 0 else 1
  }

  /** The errno for a mode that is refused, or none, and the index of the application's end. */
  method CheckMode(mode: string) returns (errno: string, wr: nat)
    requires '\0' !in mode
    ensures errno == if IsMode(mode) then "" else ModeErrno(mode)
    ensures wr <= 1 && (IsMode(mode) ==> wr == AppIndex(mode))
  {
    errno, wr := "", 0;
    if At(mode, 0) == 'a' || At(mode, 0) == 'w' {
      wr := 1;
    } else if At(mode, 0) != 'r' {
      return "EINVAL", wr;
    }
    ModeChars(mode);
    if At(mode, 1) != '\0' {
      errno := if At(mode, 1) == '+' && At(mode, 2) == '\0' then "ENOTSUP" else "EINVAL";
    }
  }

  lemma ErrnoNotEmpty(mode: string)
    ensures ModeErrno(mode) != ""
  {
  }

  lemma CloseLeft(c: Calls, wr: nat)
    requires wr <= 1
    ensures !c.malloc ==> Opened(c) == multiset{}
    ensures var p := [c.readEnd as int, c.writeEnd as int]; var q := p[wr := -1];
      c.malloc && c.pipe ==>
        One(p[0]) + One(p[1]) + One(-1) == Opened(c) && One(q[0]) + One(q[1]) + One(p[wr]) == Opened(c)
    ensures !c.pipe ==> One(-1) + One(-1) + One(-1) == Opened(c)
  {
  }

  /** closed lists the descriptors that were closed, as often as they were closed. On failure each
      open descriptor is closed exactly once; on success none is, and the two ends have one owner each. */
  method Fopencookie(mode: string, seekable: bool, c: Calls) returns (r: Setup, closed: seq<int>)
    requires '\0' !in mode
    ensures r.Refused? <==> !IsMode(mode) || seekable
    ensures r.Refused? ==> r.errno == if IsMode(mode) then "ENOTSUP" else ModeErrno(mode)
    ensures r.Ready? <==> !r.Refused? && c.malloc && c.pipe && c.fdopen && c.thread
    ensures r.Ready? ==> r == if AppIndex(mode) == 0 then Ready(c.readEnd, c.writeEnd) else Ready(c.writeEnd, c.readEnd)
    ensures multiset(closed) == if r.Aborted? then Opened(c) else multiset{}
  {
    hide IsMode, ModeErrno, AppIndex, One, Opened;
    ErrnoNotEmpty(mode);
    closed := [];
    var errno, wr := CheckMode(mode);
    var rd := 1 - wr;
    if errno != "" {
      return Refused(errno), closed;
    }
    if seekable {
      return Refused("ENOTSUP"), closed;
    }
    CloseLeft(c, wr);
    if !c.malloc {
      return Aborted, closed;
    }
    var p := [-1, -1];
    var f := -1;
    if c.pipe {
      p := [c.readEnd as int, c.writeEnd as int];
      if c.fdopen {
        f := p[wr];
        p := p[wr := -1];
        if c.thread {
          return Ready(f, p[rd]), closed;
        }
      }
    }
    closed := CloseAll(p[0], p[1], f);
    r := Aborted;
  }

  /** funopen does not take the stream's descriptor out of p[] when fdopen succeeds, so when the
      thread cannot be started after that, it closes this descriptor twice; and only then. */
  method Funopen(canRead: bool, canWrite: bool, seekable: bool, c: Calls) returns (r: Setup, closed: seq<int>)
    ensures r.Refused? <==> seekable || canRead == canWrite
    ensures r.Refused? ==> r.errno == (if seekable || canRead then "ENOTSUP" else "EINVAL")
    ensures r.Ready? <==> !r.Refused? && c.malloc && c.pipe && c.fdopen && c.thread
    ensures r.Ready? ==> if canRead then r == Ready(c.readEnd, c.writeEnd) else r == Ready(c.writeEnd, c.readEnd)
    ensures multiset(closed) ==
      if !r.Aborted? then multiset{}
      else if c.malloc && c.pipe && c.fdopen && !c.thread
      then Opened(c) + multiset{if canRead then c.readEnd else c.writeEnd}
      else Opened(c)
  {
    closed := [];
    if seekable {
      return Refused("ENOTSUP"), closed;
    }
    if canRead && canWrite {
      return Refused("ENOTSUP"), closed;
    }
    if !canRead && !canWrite {
      return Refused("EINVAL"), closed;
    }
    if !c.malloc || !c.pipe {
      return Aborted, closed;
    }
    CloseLeft(c, 0);
    var p := [c.readEnd as int, c.writeEnd as int];
    var f := -1;
    if c.fdopen {
      f := if canRead then p[0] else p[1];
      if c.thread {
        return Ready(f, if canRead then p[1] else p[0]), closed;
      }
    }
    closed := CloseAll(p[0], p[1], f);
    r := Aborted;
  }
}
