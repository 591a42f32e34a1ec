/**
  The capture loop of src/python/raw.py (`main` together with the trigger flag
  set by the keyboard and WebSocket listeners), as a step function over an
  explicit state record.

  One turn of the loop reads the clock and the camera; such a turn is a `Tick`
  carrying those readings. Keyboard and WebSocket deliveries are `KeyPress` and
  `Remote` events that can arrive between any two turns. The loop cycles through
  three phases:
  - `Starting`: pick the output directory (recomputed only when the date changed)
    and clear the buffers and the trigger flag;
  - `Buffering`: while the flag is clear, append one frame per turn and take a
    snapshot whenever 30 s have passed since the last one; once the flag is seen
    set, read the trigger time;
  - `PostCapture`: append exactly FPS * POST_SECONDS more frames, then flush the
    buffers as a session and start over.
  Files written, snapshots and sync requests are recorded as `Effect`s.
 */
module CaptureLoop {
  import opened Wrappers
  import opened Paths
  import opened PixelDepth
  import opened RingBuffer
  import opened SessionWriter
  import Dispatch

  const FPS: nat := 60
  const PRE_SECONDS: nat := 2
  const POST_SECONDS: nat := 2

  /** Capacity of both deques: `FPS * (PRE_SECONDS + POST_SECONDS)`, 240 frames. */
  const BUFFER_FRAMES: nat := FPS * (PRE_SECONDS + POST_SECONDS)

  /** Frames captured after the trigger is seen: `FPS * POST_SECONDS`, 120 frames. */
  const POST_FRAMES: nat := FPS * POST_SECONDS

  /** Timestamps are whole microseconds since the epoch. */
  const MICROS_PER_SECOND: nat := 1_000_000

  /** `snapshot_interval = 30` seconds. */
  const SNAPSHOT_INTERVAL: nat := 30 * MICROS_PER_SECOND

  /** What one turn of the loop reads: `time.time()`, the local date and a raw camera frame. */
  datatype Reading = Reading(now: nat, date: Date, raw: RawFrame)

  datatype Phase = Starting | Buffering | PostCapture(remaining: nat, triggerTime: nat)

  datatype Event =
    | Tick(reading: Reading)
    | KeyPress
    | Remote(message: Dispatch.Message)

  /** What the loop leaves behind: files written and commands run. */
  datatype Effect =
    | SnapshotSaved(date: Date, timestamp: nat, frame: Frame)
    | SessionSaved(session: Session)
    | Archived(dir: string)
    | Synced(dir: string)

  datatype State = State(
    phase: Phase,
    buffer: seq<Frame>,
    timestamps: seq<nat>,
    triggered: bool,
    currentDate: Option<Date>,
    outputDir: string,
    lastSnapshot: nat,
    listening: bool,
    corrected: bool,
    effects: seq<Effect>)

  /**
    The state when `main` starts: empty deques, flag clear, no date yet,
    `last_snapshot_time = 0`. `corrected` selects the WebSocket listener: the
    code as written (`false`) or the one whose archive command reaches the
    session directory (`true`); no event changes it.
   */
  function Init(corrected: bool): State {
    State(Starting, [], [], false, None, "", 0, true, corrected, [])
  }

  /** `int(timestamp)`: whole seconds (timestamps are non-negative, so truncation is the floor). */
  function Seconds(t: nat): nat {
    t / MICROS_PER_SECOND
  }

  /** The file a snapshot effect was written to: `snapshot_<int(timestamp)>.tiff` under the date. */
  function SnapshotFile(e: Effect): string
    requires e.SnapshotSaved?
  {
    SnapshotPath(e.date, Seconds(e.timestamp))
  }

  /** The snapshots among `effects`, in order. */
  function Snapshots(effects: seq<Effect>): (ss: seq<Effect>)
    ensures |ss| <= |effects|
    ensures forall i :: 0 <= i < |ss| ==> ss[i].SnapshotSaved? && ss[i] in effects
    decreases |effects|
  {
    if effects == [] then []
    else
      var last := effects[|effects| - 1];
      Snapshots(effects[..|effects| - 1]) + (if last.SnapshotSaved? then [last] else [])
  }

  /** The two deques hold equally many entries, at most their capacity. */
  predicate Lockstep(s: State) {
    |s.buffer| == |s.timestamps| <= BUFFER_FRAMES
  }

  /** Snapshots are pairwise at least the snapshot interval apart, the latest taken at `last`. */
  ghost predicate Spaced(ss: seq<Effect>, last: nat)
    requires forall i :: 0 <= i < |ss| ==> ss[i].SnapshotSaved?
  {
    && (forall i, j :: 0 <= i < j < |ss| ==> ss[i].timestamp + SNAPSHOT_INTERVAL <= ss[j].timestamp)
    && (|ss| > 0 ==> ss[|ss| - 1].timestamp == last)
  }

  /** `dir` is a session directory made on date `d`: `<base>/<year>/<MM>/<DD>/rawcap_<epoch>`. */
  ghost predicate SessionDirOf(dir: string, d: Date) {
    exists e: nat :: dir == SessionDir(BASE_DIR, d, e)
  }

  /** The invariant of every reachable state. */
  ghost predicate Valid(s: State) {
    && Lockstep(s)
    && (s.phase.PostCapture? ==> 1 <= s.phase.remaining <= POST_FRAMES && s.triggered)
    && (s.phase != Starting ==> s.currentDate.Some?)
    && (s.currentDate.Some? ==> SessionDirOf(s.outputDir, s.currentDate.value))
    && Spaced(Snapshots(s.effects), s.lastSnapshot)
  }

  /** Setting the trigger flag (`triggered.set()`). */
  function Arm(s: State): State {
    s.(triggered := true)
  }

  /**
    The start of a session: the output directory is recomputed only when the
    date differs from the one it was made for; the deques and the flag are cleared.
   */
  function StartSession(s: State, r: Reading): State {
    var dir := if s.currentDate == Some(r.date) then s.outputDir else SessionDir(BASE_DIR, r.date, Seconds(r.now));
    s.(phase := Buffering, buffer := [], timestamps := [], triggered := false,
       currentDate := Some(r.date), outputDir := dir)
  }

  /** Appending one captured frame and its timestamp to both deques. */
  function Record(s: State, r: Reading): (t: State)
    requires Lockstep(s)
    ensures Lockstep(t)
  {
    s.(buffer := Push(s.buffer, Capture(r.raw), BUFFER_FRAMES),
       timestamps := Push(s.timestamps, r.now, BUFFER_FRAMES))
  }

  /** The effects of a snapshot: the frame is saved under the date, then the snapshot tree is synced. */
  function SnapshotEffects(r: Reading): seq<Effect> {
    [SnapshotSaved(r.date, r.now, Capture(r.raw)), Synced(SNAPSHOT_BASE_DIR)]
  }

  /** Whether a buffering turn at time `now` takes a snapshot. */
  predicate SnapshotDue(s: State, now: nat) {
    now >= s.lastSnapshot + SNAPSHOT_INTERVAL
  }

  /**
    One turn of the buffering loop. A set flag ends buffering and the turn's
    clock reading becomes the trigger time; otherwise one frame is appended and
    a snapshot is taken exactly when the interval has elapsed.
   */
  function BufferTick(s: State, r: Reading): (t: State)
    requires Lockstep(s)
    ensures Lockstep(t)
  {
    if s.triggered then s.(phase := PostCapture(POST_FRAMES, r.now))
    else
      var t := Record(s, r);
      if SnapshotDue(s, r.now) then t.(lastSnapshot := r.now, effects := s.effects + SnapshotEffects(r))
      else t
  }

  /** The session the loop flushes: the deques as they are, with the directory and trigger time. */
  function Flushed(s: State, triggerTime: nat): Session {
    Session(s.outputDir, triggerTime, s.buffer, s.timestamps)
  }

  /** The effects of the end of a session: the session is written, then the frames tree is synced. */
  function FlushEffects(s: State, triggerTime: nat): seq<Effect> {
    [SessionSaved(Flushed(s, triggerTime)), Synced(BASE_DIR)]
  }

  /**
    One turn of post-trigger capture: one more frame is appended; after the last
    of the remaining turns the deques are flushed as a session and the base
    directory is synced.
   */
  function PostTick(s: State, r: Reading): (t: State)
    requires Lockstep(s) && s.phase.PostCapture?
    ensures Lockstep(t)
  {
    var t := Record(s, r);
    if s.phase.remaining > 1 then t.(phase := PostCapture(s.phase.remaining - 1, s.phase.triggerTime))
    else t.(phase := Starting, effects := s.effects + FlushEffects(t, s.phase.triggerTime))
  }

  /** The effects of the archive command: the directory is zipped and removed, then its parent is synced. */
  function ArchiveEffects(dir: string): seq<Effect> {
    [Archived(dir), Synced(dir + "/../")]
  }

  /**
    A WebSocket message, handled while the listener is still running. A trigger
    message arms the flag. As written, the archive command ends the listener
    without archiving anything; with the correction it archives the current
    session directory, when one exists, and syncs its parent.
   */
  function RemoteMessage(s: State, m: Dispatch.Message): State {
    if !s.listening then s
    else
      var receipt := if s.corrected then Dispatch.Receive(m) else Dispatch.ReceiveAsWritten(m);
      var t := s.(listening := receipt.keepListening);
      match receipt.command
      case ArmTrigger => Arm(t)
      case CompressAndSync =>
        if s.currentDate.Some? then t.(effects := s.effects + ArchiveEffects(s.outputDir)) else t
      case NoCommand => t
  }

  /** One event. */
  function Step(s: State, e: Event): (t: State)
    requires Lockstep(s)
    ensures Lockstep(t)
  {
    match e
    case KeyPress => Arm(s)
    case Remote(m) => RemoteMessage(s, m)
    case Tick(r) =>
      match s.phase
      case Starting => StartSession(s, r)
      case Buffering => BufferTick(s, r)
      case PostCapture(_, _) => PostTick(s, r)
  }

  /** A run of events, one step at a time; the deques stay in lockstep throughout. */
  function Run(s: State, events: seq<Event>): (t: State)
    requires Lockstep(s)
    ensures Lockstep(t)
    decreases |events|
  {
    if events == [] then s else Run(Step(s, events[0]), events[1..])
  }

  lemma RunCons(s: State, e: Event, es: seq<Event>)
    requires Lockstep(s)
    ensures Run(s, [e] + es) == Run(Step(s, e), es)
  {
    assert ([e] + es)[1..] == es;
  }

  /** Turns of the loop, one per reading. */
  function Ticks(rs: seq<Reading>): (es: seq<Event>)
    ensures |es| == |rs|
    ensures forall i :: 0 <= i < |rs| ==> es[i] == Tick(rs[i])
  {
    seq(|rs|, i requires 0 <= i < |rs| => Tick(rs[i]))
  }

  /** The frames a run of readings captures. */
  function Frames(rs: seq<Reading>): (fs: seq<Frame>)
    ensures |fs| == |rs|
    ensures forall i :: 0 <= i < |rs| ==> fs[i] == Capture(rs[i].raw)
  {
    seq(|rs|, i requires 0 <= i < |rs| => Capture(rs[i].raw))
  }

  /** The clock readings of a run of readings. */
  function Times(rs: seq<Reading>): (ts: seq<nat>)
    ensures |ts| == |rs|
    ensures forall i :: 0 <= i < |rs| ==> ts[i] == rs[i].now
  {
    seq(|rs|, i requires 0 <= i < |rs| => rs[i].now)
  }

  lemma TicksCons(rs: seq<Reading>)
    requires rs != []
    ensures Ticks(rs) == [Tick(rs[0])] + Ticks(rs[1..])
  {
  }

  lemma FramesCons(rs: seq<Reading>)
    requires rs != []
    ensures Frames(rs) == [Capture(rs[0].raw)] + Frames(rs[1..])
    ensures Times(rs) == [rs[0].now] + Times(rs[1..])
  {
  }

  // ---------------------------------------------------------------------------
  // What one step does
  // ---------------------------------------------------------------------------

  /**
    The start of a session: buffering begins with empty deques and a clear flag;
    the directory is kept when the date is the one it was made for and is a new
    `rawcap_<seconds>` directory under the new date otherwise.
   */
  lemma StartSessionFacts(s: State, r: Reading)
    ensures var t := StartSession(s, r);
      && t.phase == Buffering && t.buffer == [] && t.timestamps == [] && !t.triggered
      && t.currentDate == Some(r.date)
      && (s.currentDate == Some(r.date) ==> t.outputDir == s.outputDir)
      && (s.currentDate != Some(r.date) ==> t.outputDir == SessionDir(BASE_DIR, r.date, Seconds(r.now)))
      && t.lastSnapshot == s.lastSnapshot && t.effects == s.effects && t.listening == s.listening
  {
  }

  /**
    A buffering turn: with the flag set, buffering ends and this turn's clock
    reading is the trigger time; otherwise the frame and its timestamp are
    appended and a snapshot of the frame is taken exactly when it is due.
   */
  lemma BufferTickFacts(s: State, r: Reading)
    requires Lockstep(s)
    ensures var t := BufferTick(s, r);
      && (s.triggered ==> t == s.(phase := PostCapture(POST_FRAMES, r.now)))
      && (!s.triggered ==>
            t.phase == s.phase &&
            t.buffer == Push(s.buffer, Capture(r.raw), BUFFER_FRAMES) &&
            t.timestamps == Push(s.timestamps, r.now, BUFFER_FRAMES))
      && (!s.triggered && SnapshotDue(s, r.now) ==>
            t.lastSnapshot == r.now && t.effects == s.effects + SnapshotEffects(r))
      && (!(!s.triggered && SnapshotDue(s, r.now)) ==>
            t.lastSnapshot == s.lastSnapshot && t.effects == s.effects)
      && t.currentDate == s.currentDate && t.outputDir == s.outputDir
      && t.triggered == s.triggered && t.listening == s.listening
  {
  }

  /**
    A post-trigger turn appends the frame and its timestamp; it counts the
    remaining turns down and the last one flushes the deques, as they are after
    the append, into the session directory.
   */
  lemma PostTickFacts(s: State, r: Reading)
    requires Lockstep(s) && s.phase.PostCapture?
    ensures var t := PostTick(s, r);
      && t.buffer == Push(s.buffer, Capture(r.raw), BUFFER_FRAMES)
      && t.timestamps == Push(s.timestamps, r.now, BUFFER_FRAMES)
    ensures var t := PostTick(s, r);
      && t.lastSnapshot == s.lastSnapshot && t.triggered == s.triggered && t.listening == s.listening
      && t.currentDate == s.currentDate && t.outputDir == s.outputDir
      && (s.phase.remaining > 1 ==>
            t.phase == PostCapture(s.phase.remaining - 1, s.phase.triggerTime) && t.effects == s.effects)
      && (s.phase.remaining <= 1 ==>
            t.phase == Starting && t.effects == s.effects + FlushEffects(t, s.phase.triggerTime))
  {
    PostTickControl(s, r);
  }

  /** The part of a post-trigger turn that does not concern the deques' contents. */
  lemma PostTickControl(s: State, r: Reading)
    requires Lockstep(s) && s.phase.PostCapture?
    ensures var t := PostTick(s, r);
      && t.lastSnapshot == s.lastSnapshot && t.triggered == s.triggered && t.listening == s.listening
      && t.currentDate == s.currentDate && t.outputDir == s.outputDir
      && (s.phase.remaining > 1 ==>
            t.phase == PostCapture(s.phase.remaining - 1, s.phase.triggerTime) && t.effects == s.effects)
      && (s.phase.remaining <= 1 ==>
            t.phase == Starting && t.effects == s.effects + FlushEffects(t, s.phase.triggerTime))
  {
  }

  /** Whether a message is the archive command and the listener would act on it. */
  predicate ArchiveDue(s: State, m: Dispatch.Message) {
    s.corrected && s.listening && m == Dispatch.Object(Some(Dispatch.COMPRESS_TYPE)) && s.currentDate.Some?
  }

  /**
    A message leaves the capture alone. While the listener runs, "TRIGG" arms
    the flag and anything that is not a JSON object ends the listener. As
    written, "COMPRESS_AND_SYNC" also ends the listener and archives nothing;
    with the correction it archives the directory in use (if any) and the
    listener goes on.
   */
  lemma RemoteMessageFacts(s: State, m: Dispatch.Message)
    ensures var t := RemoteMessage(s, m);
      && t.phase == s.phase && t.buffer == s.buffer && t.timestamps == s.timestamps
      && t.lastSnapshot == s.lastSnapshot && t.currentDate == s.currentDate && t.outputDir == s.outputDir
      && t.corrected == s.corrected
      && (t.triggered <==> s.triggered || (s.listening && m == Dispatch.Object(Some(Dispatch.TRIGGER_TYPE))))
      && (t.listening <==>
            s.listening && m.Object? && (s.corrected || m.kind != Some(Dispatch.COMPRESS_TYPE)))
      && (ArchiveDue(s, m) ==> t.effects == s.effects + ArchiveEffects(s.outputDir))
      && (!ArchiveDue(s, m) ==> t.effects == s.effects)
  {
  }

  /**
    As written, an archive request silences the remote trigger for good: the
    listener is gone, nothing was archived, and a "TRIGG" sent afterwards
    leaves the flag as it was.
   */
  lemma CompressMessageEndsRemoteArming(s: State)
    requires Lockstep(s) && !s.corrected && s.listening
    ensures var c := Step(s, Remote(Dispatch.Object(Some(Dispatch.COMPRESS_TYPE))));
      && !c.listening && c.effects == s.effects
      && Step(c, Remote(Dispatch.Object(Some(Dispatch.TRIGGER_TYPE)))).triggered == s.triggered
  {
    RemoteMessageFacts(s, Dispatch.Object(Some(Dispatch.COMPRESS_TYPE)));
  }

  // ---------------------------------------------------------------------------
  // Snapshot bookkeeping
  // ---------------------------------------------------------------------------

  lemma {:induction false} SnapshotsAppend(a: seq<Effect>, b: seq<Effect>)
    ensures Snapshots(a + b) == Snapshots(a) + Snapshots(b)
    decreases |b|
  {
    if b != [] {
      assert (a + b)[..|a + b| - 1] == a + b[..|b| - 1];
      SnapshotsAppend(a, b[..|b| - 1]);
    } else {
      assert a + b == a;
    }
  }

  lemma SnapshotsOfPair(extra: seq<Effect>)
    requires |extra| == 2 && !extra[1].SnapshotSaved?
    ensures Snapshots(extra) == if extra[0].SnapshotSaved? then [extra[0]] else []
  {
    assert extra[..1] == [extra[0]];
    assert [extra[0]][..0] == [];
  }

  /** Two effects without a snapshot keep the spacing. */
  lemma QuietEffectsKeepSpacing(effects: seq<Effect>, extra: seq<Effect>, last: nat)
    requires |extra| == 2 && !extra[0].SnapshotSaved? && !extra[1].SnapshotSaved?
    requires Spaced(Snapshots(effects), last)
    ensures Snapshots(effects + extra) == Snapshots(effects)
    ensures Spaced(Snapshots(effects + extra), last)
  {
    SnapshotsAppend(effects, extra);
    SnapshotsOfPair(extra);
  }

  /** A snapshot taken at least the interval after the last one keeps the spacing. */
  lemma SnapshotKeepsSpacing(effects: seq<Effect>, r: Reading, last: nat)
    requires r.now >= last + SNAPSHOT_INTERVAL
    requires Spaced(Snapshots(effects), last)
    ensures Snapshots(effects + SnapshotEffects(r)) == Snapshots(effects) + [SnapshotEffects(r)[0]]
    ensures Spaced(Snapshots(effects + SnapshotEffects(r)), r.now)
  {
    SnapshotsAppend(effects, SnapshotEffects(r));
    SnapshotsOfPair(SnapshotEffects(r));
    var ss := Snapshots(effects);
    var us := ss + [SnapshotEffects(r)[0]];
    forall i, j | 0 <= i < j < |us|
      ensures us[i].timestamp + SNAPSHOT_INTERVAL <= us[j].timestamp
    {
      if j == |ss| && i < |ss| - 1 {
        assert ss[i].timestamp + SNAPSHOT_INTERVAL <= ss[|ss| - 1].timestamp;
      }
    }
  }

  // ---------------------------------------------------------------------------
  // The invariant
  // ---------------------------------------------------------------------------

  lemma StartKeepsValid(s: State, r: Reading)
    requires Valid(s) && s.phase == Starting
    ensures Valid(StartSession(s, r))
  {
    StartSessionFacts(s, r);
    if s.currentDate != Some(r.date) {
      assert StartSession(s, r).outputDir == SessionDir(BASE_DIR, r.date, Seconds(r.now));
    }
  }

  lemma BufferKeepsValid(s: State, r: Reading)
    requires Valid(s) && s.phase == Buffering
    ensures Valid(BufferTick(s, r))
  {
    BufferTickFacts(s, r);
    if !s.triggered && SnapshotDue(s, r.now) {
      SnapshotKeepsSpacing(s.effects, r, s.lastSnapshot);
    }
  }

  lemma PostKeepsValid(s: State, r: Reading)
    requires Valid(s) && s.phase.PostCapture?
    ensures Valid(PostTick(s, r))
  {
    PostTickFacts(s, r);
    var t := PostTick(s, r);
    if s.phase.remaining <= 1 {
      QuietEffectsKeepSpacing(s.effects, FlushEffects(t, s.phase.triggerTime), s.lastSnapshot);
    }
  }

  lemma RemoteKeepsValid(s: State, m: Dispatch.Message)
    requires Valid(s)
    ensures Valid(RemoteMessage(s, m))
  {
    RemoteMessageFacts(s, m);
    if ArchiveDue(s, m) {
      QuietEffectsKeepSpacing(s.effects, ArchiveEffects(s.outputDir), s.lastSnapshot);
    }
  }

  /** Every event keeps the invariant. */
  lemma StepKeepsValid(s: State, e: Event)
    requires Valid(s)
    ensures Valid(Step(s, e))
  {
    match e
    case KeyPress =>
    case Remote(m) => RemoteKeepsValid(s, m);
    case Tick(r) =>
      match s.phase
      case Starting => StartKeepsValid(s, r);
      case Buffering => BufferKeepsValid(s, r);
      case PostCapture(_, _) => PostKeepsValid(s, r);
  }

  /** Every run of events keeps the invariant. */
  lemma {:induction false} RunKeepsValid(s: State, events: seq<Event>)
    requires Valid(s)
    ensures Valid(Run(s, events))
    decreases |events|
  {
    if events != [] {
      StepKeepsValid(s, events[0]);
      RunKeepsValid(Step(s, events[0]), events[1..]);
    }
  }

  // ---------------------------------------------------------------------------
  // Properties
  // ---------------------------------------------------------------------------

  /**
    Every state reachable from the start satisfies the invariant: the deques are
    in lockstep within capacity, a post-trigger capture has between 1 and 120
    turns left, a directory in use belongs to the current date and snapshots
    are spaced by the interval.
   */
  lemma ReachableStatesValid(corrected: bool, events: seq<Event>)
    ensures Valid(Run(Init(corrected), events))
    ensures |Run(Init(corrected), events).buffer| == |Run(Init(corrected), events).timestamps| <= BUFFER_FRAMES
  {
    RunKeepsValid(Init(corrected), events);
  }

  /** Arming twice is arming once, and a remote "TRIGG" arms exactly as a key press does. */
  lemma ArmingIsIdempotent(s: State)
    requires Lockstep(s)
    ensures Step(Step(s, KeyPress), KeyPress) == Step(s, KeyPress)
    ensures Step(s, KeyPress).triggered
    ensures s.listening ==>
      Step(s, Remote(Dispatch.Object(Some(Dispatch.TRIGGER_TYPE)))) == Step(s, KeyPress)
  {
  }

  /** A message that is not a JSON object ends the listener; every later message does nothing. */
  lemma MalformedMessageEndsListener(s: State, m: Dispatch.Message, m': Dispatch.Message)
    requires Lockstep(s) && !m.Object?
    ensures !Step(s, Remote(m)).listening
    ensures Step(Step(s, Remote(m)), Remote(m')) == Step(s, Remote(m))
  {
  }

  /**
    Key presses and messages change neither the phase nor the deques, so they
    cannot shorten or lengthen a post-trigger capture wherever they arrive.
   */
  lemma DeliveriesDoNotDisturbCapture(s: State, e: Event)
    requires Lockstep(s) && !e.Tick?
    ensures Step(s, e).phase == s.phase
    ensures Step(s, e).buffer == s.buffer && Step(s, e).timestamps == s.timestamps
    ensures Step(s, e).lastSnapshot == s.lastSnapshot && Step(s, e).outputDir == s.outputDir
  {
    if e.Remote? {
      RemoteMessageFacts(s, e.message);
    }
  }

  /**
    A trigger that arrives while a session is being completed is lost: the
    next session clears the flag before it is ever looked at.
   */
  lemma ArmDuringLastPostTickIsLost(s: State, r1: Reading, r2: Reading)
    requires Lockstep(s) && s.phase.PostCapture? && s.phase.remaining == 1
    ensures !Run(s, [KeyPress, Tick(r1), KeyPress, Tick(r2)]).triggered
    ensures Run(s, [KeyPress, Tick(r1), KeyPress, Tick(r2)]).phase == Buffering
  {
    var s1 := Step(s, KeyPress);
    var s2 := Step(s1, Tick(r1));
    PostTickControl(s1, r1);
    assert s2 == PostTick(s1, r1);
    var s3 := Step(s2, KeyPress);
    var s4 := Step(s3, Tick(r2));
    assert s4 == StartSession(s3, r2);
    StartSessionFacts(s3, r2);
    RunCons(s, KeyPress, [Tick(r1), KeyPress, Tick(r2)]);
    RunCons(s1, Tick(r1), [KeyPress, Tick(r2)]);
    RunCons(s2, KeyPress, [Tick(r2)]);
    RunCons(s3, Tick(r2), []);
    assert [KeyPress] + [Tick(r1), KeyPress, Tick(r2)] == [KeyPress, Tick(r1), KeyPress, Tick(r2)];
    assert [Tick(r1)] + [KeyPress, Tick(r2)] == [Tick(r1), KeyPress, Tick(r2)];
    assert [KeyPress] + [Tick(r2)] == [KeyPress, Tick(r2)];
    assert [Tick(r2)] + [] == [Tick(r2)];
  }

  /**
    The snapshot policy of one buffering turn with the flag clear: a snapshot is
    taken exactly when the interval has elapsed since the last one, it holds this
    turn's frame and timestamp, and the last snapshot time becomes this turn's.
   */
  lemma SnapshotPolicy(s: State, r: Reading)
    requires Valid(s) && s.phase == Buffering && !s.triggered
    ensures var t := Step(s, Tick(r));
      r.now - s.lastSnapshot >= SNAPSHOT_INTERVAL ==>
        Snapshots(t.effects) == Snapshots(s.effects) + [SnapshotSaved(r.date, r.now, Capture(r.raw))] &&
        t.lastSnapshot == r.now
    ensures var t := Step(s, Tick(r));
      r.now - s.lastSnapshot < SNAPSHOT_INTERVAL ==>
        Snapshots(t.effects) == Snapshots(s.effects) && t.lastSnapshot == s.lastSnapshot
  {
    BufferTickFacts(s, r);
    if r.now - s.lastSnapshot >= SNAPSHOT_INTERVAL {
      SnapshotKeepsSpacing(s.effects, r, s.lastSnapshot);
    }
  }

  /** Outside a buffering turn with the flag clear, no snapshot is taken and the snapshot clock stands still. */
  lemma NoSnapshotOutsideBuffering(s: State, e: Event)
    requires Valid(s) && !(s.phase == Buffering && !s.triggered && e.Tick?)
    ensures Snapshots(Step(s, e).effects) == Snapshots(s.effects)
    ensures Step(s, e).lastSnapshot == s.lastSnapshot
  {
    match e
    case KeyPress =>
    case Remote(m) =>
      RemoteMessageFacts(s, m);
      if ArchiveDue(s, m) {
        QuietEffectsKeepSpacing(s.effects, ArchiveEffects(s.outputDir), s.lastSnapshot);
      }
    case Tick(r) =>
      match s.phase
      case Starting => StartSessionFacts(s, r);
      case Buffering => BufferTickFacts(s, r);
      case PostCapture(_, _) =>
        PostTickFacts(s, r);
        if s.phase.remaining <= 1 {
          QuietEffectsKeepSpacing(s.effects, FlushEffects(PostTick(s, r), s.phase.triggerTime), s.lastSnapshot);
        }
  }

  /** No two snapshots are written to the same file: they are whole seconds apart. */
  lemma SnapshotFilesDistinct(s: State, i: nat, j: nat)
    requires Valid(s)
    requires i < j < |Snapshots(s.effects)|
    ensures SnapshotFile(Snapshots(s.effects)[i]) != SnapshotFile(Snapshots(s.effects)[j])
  {
    var a, b := Snapshots(s.effects)[i], Snapshots(s.effects)[j];
    assert Seconds(a.timestamp) < Seconds(b.timestamp);
    if SnapshotFile(a) == SnapshotFile(b) {
      SnapshotPathInjective(a.date, Seconds(a.timestamp), b.date, Seconds(b.timestamp));
    }
  }

  /** Peeling the first turn off a run of post-trigger turns. */
  lemma PostTickRun(s: State, rs: seq<Reading>)
    requires Lockstep(s) && s.phase.PostCapture? && rs != []
    ensures Run(s, Ticks(rs)) == Run(PostTick(s, rs[0]), Ticks(rs[1..]))
  {
    assert Step(s, Tick(rs[0])) == PostTick(s, rs[0]);
    TicksCons(rs);
    RunCons(s, Tick(rs[0]), Ticks(rs[1..]));
  }

  /** The deques after post-trigger turns hold everything appended, newest kept. */
  lemma {:induction false} PostCaptureBuffers(s: State, rs: seq<Reading>)
    requires Lockstep(s) && s.phase.PostCapture?
    requires |rs| <= s.phase.remaining
    ensures Run(s, Ticks(rs)).buffer == PushAll(s.buffer, Frames(rs), BUFFER_FRAMES)
    ensures Run(s, Ticks(rs)).timestamps == PushAll(s.timestamps, Times(rs), BUFFER_FRAMES)
    decreases |rs|
  {
    if rs == [] {
      assert Ticks(rs) == [] && Frames(rs) == [] && Times(rs) == [];
    } else {
      var s1 := PostTick(s, rs[0]);
      PostTickRun(s, rs);
      PostTickFacts(s, rs[0]);
      FramesCons(rs);
      if |rs| == 1 {
        assert Ticks(rs[1..]) == [] && Frames(rs[1..]) == [] && Times(rs[1..]) == [];
      } else {
        PostCaptureBuffers(s1, rs[1..]);
      }
    }
  }

  /** Fewer post-trigger turns than remain only count down. */
  lemma {:induction false} PostCaptureCountdown(s: State, rs: seq<Reading>)
    requires Lockstep(s) && s.phase.PostCapture?
    requires |rs| < s.phase.remaining
    ensures Run(s, Ticks(rs)).phase == PostCapture(s.phase.remaining - |rs|, s.phase.triggerTime)
    ensures Run(s, Ticks(rs)).effects == s.effects
    ensures Run(s, Ticks(rs)).outputDir == s.outputDir
    decreases |rs|
  {
    if rs == [] {
      assert Ticks(rs) == [];
    } else {
      var s1 := PostTick(s, rs[0]);
      PostTickControl(s, rs[0]);
      PostTickRun(s, rs);
      PostCaptureCountdown(s1, rs[1..]);
    }
  }

  /** The last of the remaining post-trigger turns flushes the session and returns to the start. */
  lemma {:induction false} PostCaptureFlush(s: State, rs: seq<Reading>)
    requires Lockstep(s) && s.phase.PostCapture?
    requires |rs| == s.phase.remaining >= 1
    ensures Run(s, Ticks(rs)).phase == Starting
    ensures Run(s, Ticks(rs)).effects == s.effects + FlushEffects(Run(s, Ticks(rs)), s.phase.triggerTime)
    ensures Run(s, Ticks(rs)).outputDir == s.outputDir
    decreases |rs|
  {
    var s1 := PostTick(s, rs[0]);
    PostTickControl(s, rs[0]);
    PostTickRun(s, rs);
    if |rs| == 1 {
      assert Ticks(rs[1..]) == [];
    } else {
      PostCaptureFlush(s1, rs[1..]);
    }
  }

  /**
    Post-trigger capture runs for exactly its remaining turns: after fewer it is
    still capturing and has written nothing; after exactly that many the deques
    have been flushed as a session holding the newest frames of everything
    appended, and the loop is back at the start of a session.
   */
  lemma PostCaptureRun(s: State, rs: seq<Reading>)
    requires Lockstep(s) && s.phase.PostCapture?
    requires 1 <= s.phase.remaining && |rs| <= s.phase.remaining
    ensures var t := Run(s, Ticks(rs));
      t.buffer == PushAll(s.buffer, Frames(rs), BUFFER_FRAMES) &&
      t.timestamps == PushAll(s.timestamps, Times(rs), BUFFER_FRAMES) &&
      t.outputDir == s.outputDir
    ensures |rs| < s.phase.remaining ==>
      Run(s, Ticks(rs)).phase == PostCapture(s.phase.remaining - |rs|, s.phase.triggerTime) &&
      Run(s, Ticks(rs)).effects == s.effects
    ensures |rs| == s.phase.remaining ==>
      var t := Run(s, Ticks(rs));
      t.phase == Starting &&
      t.effects == s.effects + [SessionSaved(Flushed(t, s.phase.triggerTime)), Synced(BASE_DIR)]
  {
    PostCaptureBuffers(s, rs);
    if |rs| < s.phase.remaining {
      PostCaptureCountdown(s, rs);
    } else {
      PostCaptureFlush(s, rs);
    }
  }

  /**
    The session a trigger produces, relative to the deques as the trigger finds
    them. Starting from buffering with the flag set, one turn reads the trigger
    time and exactly `POST_FRAMES` turns later the session is flushed into the
    current directory. It holds min(240, pre + 120) entries, where `pre` is the
    number buffered when the trigger was seen; its last 120 frames and
    timestamps are exactly the post-trigger ones and the rest are the newest
    entries the deques already held. `SessionOfReadings` ties those back to the
    readings buffered since the session started.
   */
  lemma TriggeredSession(s: State, r: Reading, post: seq<Reading>)
    requires Lockstep(s) && s.phase == Buffering && s.triggered
    requires |post| == POST_FRAMES
    ensures var t := Run(s, [Tick(r)] + Ticks(post));
      var session := Flushed(t, r.now);
      && t.phase == Starting
      && t.effects == s.effects + [SessionSaved(session), Synced(BASE_DIR)]
      && session.dir == s.outputDir
      && session.frames == Newest(s.buffer + Frames(post), BUFFER_FRAMES)
      && session.timestamps == Newest(s.timestamps + Times(post), BUFFER_FRAMES)
      && |session.frames| == |session.timestamps| ==
           (if |s.buffer| + POST_FRAMES <= BUFFER_FRAMES then |s.buffer| + POST_FRAMES else BUFFER_FRAMES)
      && session.frames[|session.frames| - POST_FRAMES..] == Frames(post)
      && session.timestamps[|session.timestamps| - POST_FRAMES..] == Times(post)
  {
    var s1 := Step(s, Tick(r));
    BufferTickFacts(s, r);
    assert s1 == s.(phase := PostCapture(POST_FRAMES, r.now));
    RunCons(s, Tick(r), Ticks(post));
    PostCaptureRun(s1, post);
    PushAllKeepsNewest(s.buffer, Frames(post), BUFFER_FRAMES);
    PushAllKeepsNewest(s.timestamps, Times(post), BUFFER_FRAMES);
    PushAllShape(s.buffer, Frames(post), BUFFER_FRAMES);
    PushAllShape(s.timestamps, Times(post), BUFFER_FRAMES);
  }

  lemma {:induction false} RunAppend(s: State, a: seq<Event>, b: seq<Event>)
    requires Lockstep(s)
    ensures Run(s, a + b) == Run(Run(s, a), b)
    decreases |a|
  {
    if a == [] {
      assert a + b == b;
    } else {
      assert (a + b)[0] == a[0] && (a + b)[1..] == a[1..] + b;
      RunAppend(Step(s, a[0]), a[1..], b);
    }
  }

  /** Peeling the first turn off a run of buffering turns with the flag clear. */
  lemma BufferTickRun(s: State, rs: seq<Reading>)
    requires Lockstep(s) && s.phase == Buffering && !s.triggered && rs != []
    ensures Run(s, Ticks(rs)) == Run(BufferTick(s, rs[0]), Ticks(rs[1..]))
  {
    assert Step(s, Tick(rs[0])) == BufferTick(s, rs[0]);
    TicksCons(rs);
    RunCons(s, Tick(rs[0]), Ticks(rs[1..]));
  }

  /**
    Buffering turns with the flag clear append every reading's frame to one
    deque and its clock reading to the other, in step, and leave the loop
    buffering in the same directory with the flag still clear.
   */
  lemma {:induction false} BufferingRun(s: State, rs: seq<Reading>)
    requires Lockstep(s) && s.phase == Buffering && !s.triggered
    ensures var t := Run(s, Ticks(rs));
      && t.buffer == PushAll(s.buffer, Frames(rs), BUFFER_FRAMES)
      && t.timestamps == PushAll(s.timestamps, Times(rs), BUFFER_FRAMES)
      && t.phase == Buffering && !t.triggered && t.outputDir == s.outputDir
    decreases |rs|
  {
    if rs == [] {
      assert Ticks(rs) == [] && Frames(rs) == [] && Times(rs) == [];
    } else {
      var s1 := BufferTick(s, rs[0]);
      BufferTickRun(s, rs);
      BufferTickFacts(s, rs[0]);
      FramesCons(rs);
      BufferingRun(s1, rs[1..]);
    }
  }

  /**
    The opening turn of a session, the buffering turns with the flag clear and
    the key press that arms it: the deques then hold the newest 240 frames and
    clock readings of `pre`, and the flag is set.
   */
  lemma {:induction false} OpenAndArm(s: State, r0: Reading, pre: seq<Reading>)
    requires Lockstep(s) && s.phase == Starting
    ensures var s2 := Run(s, [Tick(r0)] + Ticks(pre) + [KeyPress]);
      && s2.phase == Buffering && s2.triggered && Lockstep(s2)
      && s2.buffer == Newest(Frames(pre), BUFFER_FRAMES)
      && s2.timestamps == Newest(Times(pre), BUFFER_FRAMES)
      && s2.outputDir == StartSession(s, r0).outputDir
  {
    var s0 := StartSession(s, r0);
    StartSessionFacts(s, r0);
    assert Step(s, Tick(r0)) == s0;
    var s1 := Run(s0, Ticks(pre));
    BufferingRun(s0, pre);
    RunCons(s, Tick(r0), Ticks(pre) + [KeyPress]);
    assert [Tick(r0)] + Ticks(pre) + [KeyPress] == [Tick(r0)] + (Ticks(pre) + [KeyPress]);
    RunAppend(s0, Ticks(pre), [KeyPress]);
    RunCons(s1, KeyPress, []);
    assert [KeyPress] + [] == [KeyPress];
    PushAllKeepsNewest(s0.buffer, Frames(pre), BUFFER_FRAMES);
    PushAllKeepsNewest(s0.timestamps, Times(pre), BUFFER_FRAMES);
    assert s0.buffer + Frames(pre) == Frames(pre) && s0.timestamps + Times(pre) == Times(pre);
  }

  /** Entry i of the newest frames and of the newest clock readings of a run of readings. */
  lemma NewestPairedAt(all: seq<Reading>, n: nat, i: nat)
    requires i < |Newest(Frames(all), n)|
    ensures |Newest(Frames(all), n)| == |Newest(Times(all), n)| <= |all|
    ensures var k := |all| - |Newest(Frames(all), n)| + i;
      Newest(Frames(all), n)[i] == Capture(all[k].raw) && Newest(Times(all), n)[i] == all[k].now
  {
    var fs, ts := Frames(all), Times(all);
    var f, t := Newest(fs, n), Newest(ts, n);
    NewestKeepsPairs(fs, ts, n);
    var k := |all| - |f| + i;
    assert f[i] == fs[k] && t[i] == ts[k];
  }

  /**
    The newest entries of the frames and of the clock readings of a run of
    readings are equally many, and entry i of both comes from the same reading.
   */
  lemma NewestPaired(all: seq<Reading>, n: nat)
    ensures |Newest(Frames(all), n)| == |Newest(Times(all), n)| == (if |all| <= n then |all| else n)
    ensures forall i :: 0 <= i < |Newest(Frames(all), n)| ==>
      var k := |all| - |Newest(Frames(all), n)| + i;
      Newest(Frames(all), n)[i] == Capture(all[k].raw) && Newest(Times(all), n)[i] == all[k].now
  {
    forall i | 0 <= i < |Newest(Frames(all), n)|
      ensures var k := |all| - |Newest(Frames(all), n)| + i;
        Newest(Frames(all), n)[i] == Capture(all[k].raw) && Newest(Times(all), n)[i] == all[k].now
    {
      NewestPairedAt(all, n, i);
    }
  }

  lemma SessionEvents(s: State, r0: Reading, pre: seq<Reading>, r: Reading, post: seq<Reading>)
    requires Lockstep(s)
    ensures Run(s, [Tick(r0)] + Ticks(pre) + [KeyPress, Tick(r)] + Ticks(post)) ==
            Run(Run(s, [Tick(r0)] + Ticks(pre) + [KeyPress]), [Tick(r)] + Ticks(post))
  {
    var opening := [Tick(r0)] + Ticks(pre) + [KeyPress];
    var tail := [Tick(r)] + Ticks(post);
    assert [Tick(r0)] + Ticks(pre) + [KeyPress, Tick(r)] + Ticks(post) == opening + tail;
    RunAppend(s, opening, tail);
  }

  /** Keeping the newest 240 readings of `pre`, then of that extended by `post`, keeps the newest 240 of `pre + post`. */
  lemma NewestReadings(pre: seq<Reading>, post: seq<Reading>)
    ensures Newest(Newest(Frames(pre), BUFFER_FRAMES) + Frames(post), BUFFER_FRAMES) == Newest(Frames(pre + post), BUFFER_FRAMES)
    ensures Newest(Newest(Times(pre), BUFFER_FRAMES) + Times(post), BUFFER_FRAMES) == Newest(Times(pre + post), BUFFER_FRAMES)
  {
    NewestOfNewest(Frames(pre), Frames(post), BUFFER_FRAMES);
    NewestOfNewest(Times(pre), Times(post), BUFFER_FRAMES);
    assert Frames(pre) + Frames(post) == Frames(pre + post);
    assert Times(pre) + Times(post) == Times(pre + post);
  }

  /** The deques a whole session flushes, as the newest 240 of the readings `pre + post`. */
  lemma SessionDeques(s: State, r0: Reading, pre: seq<Reading>, r: Reading, post: seq<Reading>)
    requires Lockstep(s) && s.phase == Starting
    requires |post| == POST_FRAMES
    ensures var t := Run(s, [Tick(r0)] + Ticks(pre) + [KeyPress, Tick(r)] + Ticks(post));
      && t.phase == Starting
      && |t.effects| >= 2 && t.effects[|t.effects| - 2] == SessionSaved(Flushed(t, r.now))
      && t.outputDir == StartSession(s, r0).outputDir
      && t.buffer == Newest(Frames(pre + post), BUFFER_FRAMES)
      && t.timestamps == Newest(Times(pre + post), BUFFER_FRAMES)
  {
    SessionEvents(s, r0, pre, r, post);
    OpenAndArm(s, r0, pre);
    TriggeredSession(Run(s, [Tick(r0)] + Ticks(pre) + [KeyPress]), r, post);
    NewestReadings(pre, post);
  }

  /**
    A whole session, from the start of the turn that opens it to its flush.
    The opening turn clears the deques; `pre` is buffered with the flag clear;
    a key press arms the flag; the next turn reads the trigger time `r.now`;
    `post` is the post-trigger capture. The flushed session goes to the
    directory the opening turn chose and holds the newest 240 of the readings
    `pre + post`: entry i of its frames and entry i of its timestamps are the
    captured frame and the clock reading of one and the same reading, in
    capture order.
   */
  lemma SessionOfReadings(s: State, r0: Reading, pre: seq<Reading>, r: Reading, post: seq<Reading>)
    requires Lockstep(s) && s.phase == Starting
    requires |post| == POST_FRAMES
    ensures var t := Run(s, [Tick(r0)] + Ticks(pre) + [KeyPress, Tick(r)] + Ticks(post));
      var session := Flushed(t, r.now);
      var all := pre + post;
      && t.phase == Starting
      && |t.effects| >= 2 && t.effects[|t.effects| - 2] == SessionSaved(session)
      && session.dir == StartSession(s, r0).outputDir
      && session.frames == Newest(Frames(all), BUFFER_FRAMES)
      && session.timestamps == Newest(Times(all), BUFFER_FRAMES)
      && |session.frames| == |session.timestamps| ==
           (if |all| <= BUFFER_FRAMES then |all| else BUFFER_FRAMES)
      && forall i :: 0 <= i < |session.frames| ==>
           session.frames[i] == Capture(all[|all| - |session.frames| + i].raw) &&
           session.timestamps[i] == all[|all| - |session.frames| + i].now
  {
    SessionDeques(s, r0, pre, r, post);
    NewestPaired(pre + post, BUFFER_FRAMES);
  }
}
