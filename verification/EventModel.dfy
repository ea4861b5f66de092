/** The event engine of event_handling.c on values: what each critical section
    does to the tracked files, the clock and the trace of commands fired. */
module EventModel {
  import opened CStrings
  import opened Sequences
  import StrReplace

  // ---- Numbers -------------------------------------------------------------

  /** `UINT32_MAX`, the close timestamp of a file that is not closed. */
  const SENTINEL: nat := 0xFFFF_FFFF

  /** `long unsigned int` holds 64 bits. */
  const WORD: nat := 0x1_0000_0000_0000_0000

  type Int32 = x: int | -0x8000_0000 <= x < 0x8000_0000

  /** The delay as it takes part in an unsigned comparison. */
  function Threshold(delay: Int32): nat {
    if delay < 0 then WORD + delay else delay
  }

  predicate HasBit(mask: nat, bit: nat)
    requires bit > 0
  {
    mask / bit % 2 == 1
  }

  const IN_ACCESS: nat := 0x1
  const IN_CLOSE_WRITE: nat := 0x8
  const IN_CLOSE_NOWRITE: nat := 0x10
  const IN_OPEN: nat := 0x20
  const IN_DELETE: nat := 0x200
  const IN_DELETE_SELF: nat := 0x400

  /** `is_close_event`; `IN_CLOSE` is the union of the two close bits. */
  predicate IsCloseEvent(mask: nat) {
    || HasBit(mask, IN_CLOSE_NOWRITE) || HasBit(mask, IN_CLOSE_WRITE)
    || HasBit(mask, IN_DELETE) || HasBit(mask, IN_DELETE_SELF)
  }

  predicate IsOpenEvent(mask: nat) {
    HasBit(mask, IN_OPEN) || HasBit(mask, IN_ACCESS)
  }

  // ---- The clock -----------------------------------------------------------

  datatype RawReading = Failed | Time(sec: nat, nsec: nat)

  /** What one `clock_gettime` call may deliver: a failure, or a time since 1970
      whose tick fits `long int`. */
  type Reading = r: RawReading | r.Time? ==> r.sec <= 9223372036854 && r.nsec < 1000000000 witness Failed

  /** The readings of a whole run, by the number of calls made before. */
  type Clock = nat -> Reading

  /** `last_tick`, and how many times the clock has been read. */
  datatype Ticker = Ticker(last: nat, calls: nat)

  /** `event_handling_get_tick` */
  function GetTick(clock: Clock, t: Ticker): (r: (nat, Ticker))
    ensures r.1.calls == t.calls + 1 && t.last <= r.1.last
    ensures if clock(t.calls).Failed? then r.0 == 0 && r.1.last == t.last else r.0 == r.1.last
  {
    match clock(t.calls)
    case Failed => (0, Ticker(t.last, t.calls + 1))
    case Time(sec, nsec) =>
      var cur := sec * 1000000 + nsec / 1000000;
      if t.last > cur then (t.last, Ticker(t.last, t.calls + 1))
      else (cur, Ticker(cur, t.calls + 1))
  }

  /** No tick is the sentinel: its last six digits are a number of milliseconds.
      A tick came out of a `long int`, so it has 63 bits. */
  predicate TickLike(tick: nat) {
    tick % 1000000 < 1000 && tick < WORD / 2
  }

  lemma TickIsNotSentinel(clock: Clock, t: Ticker)
    requires TickLike(t.last)
    ensures TickLike(GetTick(clock, t).0) && TickLike(GetTick(clock, t).1.last)
    ensures GetTick(clock, t).0 != 0xFFFF_FFFF
  {
    match clock(t.calls)
    case Failed =>
    case Time(sec, nsec) =>
      var ms := nsec / 1000000;
      assert (sec * 1000000 + ms) % 1000000 == ms;
  }

  // ---- Tracked files -------------------------------------------------------

  /** `FILE_EVENT` together with the `remove` mark of its `FILE_LIST`. */
  datatype File = File(
    id: int, name: string, openTs: nat, closeTs: nat,
    isClosed: bool, firedOpen: bool, firedClosed: bool, remove: bool)

  /** `init_file` */
  function NewFile(id: int, name: string, openTs: nat): File {
    File(id, name, openTs, SENTINEL, false, false, false, false)
  }

  predicate SameFile(f: File, id: int, name: string) {
    f.id == id && f.name == name
  }

  /** `calc_open_delta` */
  function OpenDelta(clock: Clock, t: Ticker, f: File): (nat, Ticker) {
    var (tick, t') := GetTick(clock, t);
    (if tick < f.openTs then 0 else tick - f.openTs, t')
  }

  /** `find_in_file_list`: the index of the first match, or the length. */
  function FindFile(files: seq<File>, id: int, name: string): (i: nat)
    ensures i <= |files|
    ensures i < |files| ==> SameFile(files[i], id, name)
    ensures forall j | 0 <= j < i :: !SameFile(files[j], id, name)
  {
    if files == [] || SameFile(files[0], id, name) then 0
    else 1 + FindFile(files[1..], id, name)
  }

  // ---- Commands ------------------------------------------------------------

  datatype Config = Config(openCmd: string, closeCmd: string, delay: Int32)

  /** Without an open command, or with a negative delay, no open command is ever due. */
  predicate CanFire(cfg: Config) {
    cfg.openCmd != "" && cfg.delay >= 0
  }

  datatype Kind = OpenCommand | CloseCommand

  /** One `system()` call: which file it is for, its text, the last tick and the
      file's open timestamp when it was made. */
  datatype Command = Command(kind: Kind, id: int, name: string, text: string, tick: nat, openTs: nat)

  /** The configured command with every `@0` replaced by the file name. */
  function CommandText(cmd: string, name: string): string {
    if StrStr(cmd, "@0").Some? then StrReplace.Join(StrReplace.Pieces(cmd, "@0"), name) else cmd
  }

  /** `execute_open_event` */
  function ExecuteOpen(cfg: Config, f: File, fired: seq<Command>, tick: nat): (File, seq<Command>) {
    if cfg.openCmd == "" || f.firedOpen || f.firedClosed then (f, fired)
    else
      (f.(firedOpen := true),
       fired + [Command(OpenCommand, f.id, f.name, CommandText(cfg.openCmd, f.name), tick, f.openTs)])
  }

  /** `execute_close_event` */
  function ExecuteClose(cfg: Config, f: File, fired: seq<Command>, tick: nat): (File, seq<Command>) {
    if cfg.closeCmd == "" || !f.firedOpen || f.firedClosed then (f, fired)
    else
      (f.(firedClosed := true),
       fired + [Command(CloseCommand, f.id, f.name, CommandText(cfg.closeCmd, f.name), tick, f.openTs)])
  }

  // ---- The producer's critical section -------------------------------------

  datatype Event = Event(id: int, name: string, mask: nat, timestamp: nat)

  datatype Engine = Engine(files: seq<File>, ticker: Ticker, signaled: bool, fired: seq<Command>)

  /** `close_file`; the source only warns when the time is before the open. */
  function CloseFile(f: File, timestamp: nat): File {
    f.(isClosed := true, closeTs := timestamp)
  }

  /** `reset_to_open`; `firedOpen` survives. */
  function ResetToOpen(f: File, timestamp: nat): File {
    f.(isClosed := false, closeTs := SENTINEL, openTs := timestamp)
  }

  /** The close branch for the open file at `i`. */
  function HandleClose(cfg: Config, clock: Clock, e: Engine, i: nat): Engine
    requires i < |e.files|
  {
    var f := e.files[i];
    var (delta, t) := OpenDelta(clock, e.ticker, f);
    if delta > Threshold(cfg.delay) then
      var (tick, t') := GetTick(clock, t);
      e.(files := e.files[i := CloseFile(f, tick)], ticker := t')
    else if !f.firedOpen then e.(files := Without(e.files, i), ticker := t)
    else e.(ticker := t)
  }

  /** `event_handling_add_event`, when allocation succeeds. */
  function AddEvent(cfg: Config, clock: Clock, e: Engine, ev: Event): Engine {
    var i := FindFile(e.files, ev.id, ev.name);
    var e' :=
      if IsCloseEvent(ev.mask) then
        if i < |e.files| && !e.files[i].isClosed then HandleClose(cfg, clock, e, i) else e
      else if IsOpenEvent(ev.mask) then
        if i == |e.files| then e.(files := e.files + [NewFile(ev.id, ev.name, ev.timestamp)])
        else if e.files[i].isClosed then e.(files := e.files[i := ResetToOpen(e.files[i], ev.timestamp)])
        else e
      else e;
    e'.(signaled := true)
  }

  // ---- The consumer's critical section -------------------------------------

  /** What the first loop of `consumer` carries along. */
  datatype Pass = Pass(ticker: Ticker, curWait: nat, fired: seq<Command>)

  /** The open half of the loop body. */
  function VisitOpen(cfg: Config, clock: Clock, p: Pass, f: File): (Pass, File) {
    if f.firedOpen then (p, f)
    else
      var (delta, t) := OpenDelta(clock, p.ticker, f);
      if delta > Threshold(cfg.delay) then
        var (f', fired) := ExecuteOpen(cfg, f, p.fired, t.last);
        (Pass(t, p.curWait, fired), f')
      else
        var (again, t') := OpenDelta(clock, t, f);
        if p.curWait > again then
          var (wait, t'') := OpenDelta(clock, t', f);
          (Pass(t'', wait, p.fired), f)
        else (Pass(t', p.curWait, p.fired), f)
  }

  /** The close half: the mark is set even when the close command is empty. */
  function VisitClose(cfg: Config, p: Pass, f: File): (Pass, File) {
    if !f.firedClosed && f.closeTs != SENTINEL && f.firedOpen then
      var (f', fired) := ExecuteClose(cfg, f, p.fired, p.ticker.last);
      (p.(fired := fired), f'.(remove := true))
    else (p, f)
  }

  function Visit(cfg: Config, clock: Clock, p: Pass, f: File): (Pass, File) {
    var (p', f') := VisitOpen(cfg, clock, p, f);
    VisitClose(cfg, p', f')
  }

  /** The first loop of `consumer`, in list order. */
  function VisitAll(cfg: Config, clock: Clock, p: Pass, files: seq<File>): (r: (Pass, seq<File>))
    ensures |r.1| == |files|
  {
    if files == [] then (p, [])
    else
      var (p', done) := VisitAll(cfg, clock, p, files[..|files| - 1]);
      var (p'', f) := Visit(cfg, clock, p', files[|files| - 1]);
      (p'', done + [f])
  }

  /** The second loop: what is left after unlinking the marked files. */
  function Sweep(files: seq<File>): seq<File> {
    if files == [] then []
    else
      var last := files[|files| - 1];
      Sweep(files[..|files| - 1]) + if last.remove then [] else [last]
  }

  /** One turn of `consumer` from wake-up to unlock. */
  function ConsumerPass(cfg: Config, clock: Clock, e: Engine, curWait: nat): (Engine, nat) {
    var (p, visited) := VisitAll(cfg, clock, Pass(e.ticker, curWait, e.fired), e.files);
    var left := Sweep(visited);
    (Engine(left, p.ticker, false, p.fired), if left == [] then 6000 else p.curWait)
  }
}
