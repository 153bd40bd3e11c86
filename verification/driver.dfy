/** The conversation with a printer on the Linux usblp device: discovery,
    initialisation, status polling and printing. The device is a script of
    outcomes: what each read returns and whether each write succeeds. A
    script that runs out before an operation returns leaves it `Blocked`,
    standing for a driver still waiting on the device. */
module Driver {
  import opened Wrappers
  import opened Imaging
  import opened StatusRecord
  import DeviceId
  import Job

  /** The bytes of one successful read into a 32-byte buffer: os.File.Read
      reports a read of nothing as end-of-file, so there is at least one. */
  type Chunk = b: seq<bv8> | 0 < |b| <= StatusSize witness [0]

  /** What one read of up to 32 bytes returns. `ReadEof` carries the time
      elapsed, in milliseconds, since the current poll started. */
  datatype ReadOutcome = ReadData(bytes: Chunk) | ReadEof(elapsedMs: int) | ReadFails(code: int)

  datatype WriteOutcome = WriteOk | WriteFails(code: int)

  /** The device end of the conversation; `sent` is every byte written
      successfully so far. */
  datatype Device = Device(incoming: seq<ReadOutcome>, outgoing: seq<WriteOutcome>, sent: seq<bv8>)

  datatype Error =
    | IoError(code: int)
    | Timeout
    | InvalidRead
    | ErrorOccurred
    | UnexpectedStatus
    | UnknownMedia

  /** The driver's view of one printer. `notify` says whether a status
      callback is installed; `notified` is what it has been handed. */
  datatype Printer = Printer(
    manufacturer: string,
    model: string,
    lastStatus: Option<Status>,
    notify: bool,
    notified: seq<Status>)

  const UpdateTimeoutMs: int := 1000
  const PrintTimeoutMs: int := 10000

  // Writing

  datatype Written = Written(dev: Device, err: Option<Error>) | WriteBlocked

  /** One write: the next write outcome decides it; a failed write sends
      nothing. Reads are not touched. */
  function Write(dev: Device, data: seq<bv8>): (w: Written)
    ensures w.WriteBlocked? <==> |dev.outgoing| == 0
    ensures w.Written? ==> w.dev.incoming == dev.incoming && w.dev.outgoing == dev.outgoing[1..]
    ensures w.Written? ==> (w.err.None? <==> dev.outgoing[0].WriteOk?)
    ensures w.Written? ==> w.dev.sent == if w.err.None? then dev.sent + data else dev.sent
  {
    if |dev.outgoing| == 0 then WriteBlocked
    else match dev.outgoing[0]
      case WriteOk => Written(dev.(outgoing := dev.outgoing[1..], sent := dev.sent + data), None)
      case WriteFails(c) => Written(dev.(outgoing := dev.outgoing[1..]), Some(IoError(c)))
  }

  // Polling

  /** A read ends a poll unless it is an end-of-file seen before the
      timeout has passed. */
  predicate Settles(e: ReadOutcome, timeoutMs: int)
  {
    !(e.ReadEof? && e.elapsedMs <= timeoutMs)
  }

  /** Index of the first read that ends a poll, or -1 if none does. */
  function FirstSettling(incoming: seq<ReadOutcome>, timeoutMs: int): (k: int)
    ensures -1 <= k < |incoming|
    ensures k >= 0 ==> Settles(incoming[k], timeoutMs)
    ensures forall j :: 0 <= j < |incoming| && (k < 0 || j < k) ==> !Settles(incoming[j], timeoutMs)
    decreases |incoming|
  {
    if |incoming| == 0 then -1
    else if Settles(incoming[0], timeoutMs) then 0
    else
      var k := FirstSettling(incoming[1..], timeoutMs);
      if k < 0 then -1 else k + 1
  }

  /** How a read that ends a poll ends it. */
  function Settle(e: ReadOutcome): Result<Status, Error>
  {
    match e
    case ReadEof(_) => Err(Timeout)
    case ReadFails(c) => Err(IoError(c))
    case ReadData(b) => if |b| < StatusSize then Err(InvalidRead) else Ok(b[..StatusSize])
  }

  datatype Polled = Polled(result: Result<Status, Error>, rest: seq<ReadOutcome>) | PollBlocked

  /** pollStatusBytes on the read script: end-of-file retries and is the only
      path that checks the timeout; another error is returned; a short read
      is invalid; a full read is the status. */
  function PollReads(incoming: seq<ReadOutcome>, timeoutMs: int): (r: Polled)
    ensures var k := FirstSettling(incoming, timeoutMs);
      && (r.PollBlocked? <==> k < 0)
      && (r.Polled? ==> r.result == Settle(incoming[k]) && r.rest == incoming[k + 1..])
    decreases |incoming|
  {
    if |incoming| == 0 then PollBlocked
    else match incoming[0]
      case ReadEof(elapsed) =>
        if elapsed > timeoutMs then Polled(Err(Timeout), incoming[1..])
        else PollReads(incoming[1..], timeoutMs)
      case ReadFails(c) => Polled(Err(IoError(c)), incoming[1..])
      case ReadData(b) =>
        if |b| < StatusSize then Polled(Err(InvalidRead), incoming[1..])
        else Polled(Ok(b[..StatusSize]), incoming[1..])
  }

  /** updateStatus: remember the status and hand it to the callback. */
  function Received(p: Printer, s: Status): (q: Printer)
    ensures q.lastStatus == Some(s)
    ensures q.notified == if p.notify then p.notified + [s] else p.notified
    ensures q.manufacturer == p.manufacturer && q.model == p.model && q.notify == p.notify
  {
    p.(lastStatus := Some(s), notified := if p.notify then p.notified + [s] else p.notified)
  }

  datatype PollRun = PollRun(p: Printer, dev: Device, result: Result<Status, Error>) | PollRunBlocked

  /** pollStatusBytes on a printer: a full read updates the status once;
      a failed poll leaves the printer as it was. */
  function Poll(p: Printer, dev: Device, timeoutMs: int): (r: PollRun)
    ensures r.PollRun? ==> |r.dev.incoming| < |dev.incoming|
    ensures r.PollRun? ==> var k := FirstSettling(dev.incoming, timeoutMs);
      k >= 0 && r.result == Settle(dev.incoming[k]) && r.dev.incoming == dev.incoming[k + 1..]
    ensures r.PollRun? ==> r.dev.outgoing == dev.outgoing && r.dev.sent == dev.sent
    ensures r.PollRun? && r.result.Ok? ==> r.p == Received(p, r.result.value)
    ensures r.PollRun? && r.result.Err? ==> r.p == p
  {
    match PollReads(dev.incoming, timeoutMs)
    case PollBlocked => PollRunBlocked
    case Polled(result, rest) =>
      var q := if result.Ok? then Received(p, result.value) else p;
      PollRun(q, dev.(incoming := rest), result)
  }

  // Operations

  datatype Run = Run(p: Printer, dev: Device, err: Option<Error>) | Blocked

  /** The status request, ESC i S. */
  const StatusRequest: seq<bv8> := [0x1b, 0x69, 0x53]

  /** UpdateStatus: request a status and wait up to a second for it. A
      failed write leaves the last status as it was; a failed poll clears it. */
  function UpdateStatus(p: Printer, dev: Device): (r: Run)
    ensures var k := FirstSettling(dev.incoming, UpdateTimeoutMs);
      r.Blocked? <==> |dev.outgoing| == 0 || (dev.outgoing[0].WriteOk? && k < 0)
    ensures |dev.outgoing| > 0 && dev.outgoing[0].WriteFails? ==>
      r == Run(p, dev.(outgoing := dev.outgoing[1..]), Some(IoError(dev.outgoing[0].code)))
    ensures var k := FirstSettling(dev.incoming, UpdateTimeoutMs);
      r.Run? && r.err.None? <==>
      |dev.outgoing| > 0 && dev.outgoing[0].WriteOk? && k >= 0 && Settle(dev.incoming[k]).Ok?
    ensures |dev.outgoing| > 0 && dev.outgoing[0].WriteOk? ==>
      var k := FirstSettling(dev.incoming, UpdateTimeoutMs);
      k >= 0 ==>
      && r.Run?
      && r.dev == Device(dev.incoming[k + 1..], dev.outgoing[1..], dev.sent + StatusRequest)
      && (Settle(dev.incoming[k]).Ok? ==> r.p == Received(p, Settle(dev.incoming[k]).value))
      && (Settle(dev.incoming[k]).Err? ==>
            r.p == p.(lastStatus := None) && r.err == Some(Settle(dev.incoming[k]).error))
  {
    var w := Write(dev, StatusRequest);
    if w.WriteBlocked? then Blocked
    else if w.err.Some? then Run(p, w.dev, w.err)
    else
      var polled := Poll(p, w.dev, UpdateTimeoutMs);
      if polled.PollRunBlocked? then Blocked
      else if polled.result.Err? then Run(p.(lastStatus := None), polled.dev, Some(polled.result.error))
      else Run(polled.p, polled.dev, None)
  }

  /** 400 zero bytes that clear the print buffer. */
  const Invalidate: seq<bv8> := Zeros(400)

  function Zeros(n: nat): (z: seq<bv8>)
    ensures |z| == n && forall i :: 0 <= i < n ==> z[i] == 0
  {
    if n == 0 then [] else [0] + Zeros(n - 1)
  }

  /** ESC @: initialise. */
  const InitCommand: seq<bv8> := [0x1b, 0x40]

  /** Index of the first end-of-file read, or -1. */
  function FirstEof(incoming: seq<ReadOutcome>): (k: int)
    ensures -1 <= k < |incoming|
    ensures k >= 0 ==> incoming[k].ReadEof?
    ensures forall j :: 0 <= j < |incoming| && (k < 0 || j < k) ==> !incoming[j].ReadEof?
    decreases |incoming|
  {
    if |incoming| == 0 then -1
    else if incoming[0].ReadEof? then 0
    else
      var k := FirstEof(incoming[1..]);
      if k < 0 then -1 else k + 1
  }

  /** The drain loop: reads until one returns end-of-file, whatever the
      others return, errors included. */
  function Drain(incoming: seq<ReadOutcome>): (rest: Option<seq<ReadOutcome>>)
    decreases |incoming|
  {
    if |incoming| == 0 then None
    else if incoming[0].ReadEof? then Some(incoming[1..])
    else Drain(incoming[1..])
  }

  /** The drain stops right after the first end-of-file, and waits forever
      if none comes. */
  lemma {:induction false} DrainStopsAtFirstEof(incoming: seq<ReadOutcome>)
    ensures var k := FirstEof(incoming);
      && (Drain(incoming).None? <==> k < 0)
      && (Drain(incoming).Some? ==> Drain(incoming).value == incoming[k + 1..])
    decreases |incoming|
  {
    if |incoming| > 0 && !incoming[0].ReadEof? {
      DrainStopsAtFirstEof(incoming[1..]);
      var k := FirstEof(incoming[1..]);
      if k >= 0 {
        assert incoming[1..][k + 1..] == incoming[k + 2..];
      }
    }
  }

  /** Initialize: clear the buffer, reset the printer, flush stale replies. */
  function Initialize(p: Printer, dev: Device): (r: Run)
    ensures r.Run? ==> r.p == p
    ensures r.Blocked? <==>
      || |dev.outgoing| == 0
      || (dev.outgoing[0].WriteOk? && |dev.outgoing| == 1)
      || (dev.outgoing[0].WriteOk? && dev.outgoing[1].WriteOk? && FirstEof(dev.incoming) < 0)
    ensures |dev.outgoing| > 0 && dev.outgoing[0].WriteFails? ==>
      r == Run(p, dev.(outgoing := dev.outgoing[1..]), Some(IoError(dev.outgoing[0].code)))
    ensures |dev.outgoing| > 1 && dev.outgoing[0].WriteOk? && dev.outgoing[1].WriteFails? ==>
      r == Run(p, Device(dev.incoming, dev.outgoing[2..], dev.sent + Invalidate),
               Some(IoError(dev.outgoing[1].code)))
    ensures r.Run? && r.err.None? <==>
      |dev.outgoing| > 1 && dev.outgoing[0].WriteOk? && dev.outgoing[1].WriteOk? && FirstEof(dev.incoming) >= 0
    ensures r.Run? && r.err.None? ==>
      r.dev == Device(dev.incoming[FirstEof(dev.incoming) + 1..], dev.outgoing[2..],
                      dev.sent + Invalidate + InitCommand)
  {
    DrainStopsAtFirstEof(dev.incoming);
    match Write(dev, Invalidate)
    case WriteBlocked => Blocked
    case Written(dev1, err1) =>
      if err1.Some? then Run(p, dev1, err1)
      else match Write(dev1, InitCommand)
        case WriteBlocked => Blocked
        case Written(dev2, err2) =>
          if err2.Some? then Run(p, dev2, err2)
          else match Drain(dev2.incoming)
            case None => Blocked
            case Some(rest) => Run(p, dev2.(incoming := rest), None)
  }

  // Printing

  /** The verdict of one poll inside the print loop: None to keep waiting. */
  function PollVerdict(result: Result<Status, Error>): Option<Option<Error>>
  {
    match result
    case Err(e) => Some(Some(e))
    case Ok(s) =>
      match ClassifyType(Type(s))
      case PhaseChange => None
      case PrintingCompleted => Some(None)
      case ErrorOccurred => Some(Some(Error.ErrorOccurred))
      case _ => Some(Some(UnexpectedStatus))
  }

  /** The outcomes of successive polls on a read script, until it runs out. */
  function PollAll(incoming: seq<ReadOutcome>, timeoutMs: int): (outs: seq<Result<Status, Error>>)
    ensures |outs| <= |incoming|
    decreases |incoming|
  {
    match PollReads(incoming, timeoutMs)
    case PollBlocked => []
    case Polled(result, rest) => [result] + PollAll(rest, timeoutMs)
  }

  /** Index of the first poll outcome that ends the print loop, or -1. */
  function FirstDecisive(outs: seq<Result<Status, Error>>): (k: int)
    ensures -1 <= k < |outs|
    ensures k >= 0 ==> PollVerdict(outs[k]).Some?
    ensures forall j :: 0 <= j < |outs| && (k < 0 || j < k) ==> PollVerdict(outs[j]).None?
    decreases |outs|
  {
    if |outs| == 0 then -1
    else if PollVerdict(outs[0]).Some? then 0
    else
      var k := FirstDecisive(outs[1..]);
      if k < 0 then -1 else k + 1
  }

  /** The print loop: poll with a ten-second timeout until a status other
      than a phase change arrives or a poll fails. */
  function PrintLoop(p: Printer, dev: Device): (r: Run)
    ensures r.Run? ==> r.dev.outgoing == dev.outgoing && r.dev.sent == dev.sent
    decreases |dev.incoming|
  {
    match Poll(p, dev, PrintTimeoutMs)
    case PollRunBlocked => Blocked
    case PollRun(q, dev1, result) =>
      match PollVerdict(result)
      case None => PrintLoop(q, dev1)
      case Some(err) => Run(q, dev1, err)
  }

  /** The print loop ends with the verdict of the first poll that is a
      failure or a status other than a phase change; it stays blocked when
      the script holds none. */
  lemma {:induction false} PrintLoopVerdict(p: Printer, dev: Device)
    ensures var outs := PollAll(dev.incoming, PrintTimeoutMs);
      var k := FirstDecisive(outs);
      && (PrintLoop(p, dev).Blocked? <==> k < 0)
      && (PrintLoop(p, dev).Run? ==> PrintLoop(p, dev).err == PollVerdict(outs[k]).value)
    decreases |dev.incoming|
  {
    var outs := PollAll(dev.incoming, PrintTimeoutMs);
    match PollReads(dev.incoming, PrintTimeoutMs)
    case PollBlocked =>
    case Polled(result, rest) =>
      assert outs == [result] + PollAll(rest, PrintTimeoutMs);
      var pr := Poll(p, dev, PrintTimeoutMs);
      if PollVerdict(result).None? {
        PrintLoopVerdict(pr.p, pr.dev);
        assert outs[1..] == PollAll(rest, PrintTimeoutMs);
      }
  }

  /** Print: build the job from the last status, send it, then wait for the
      outcome. Unknown media sends nothing. The job builder dereferences the
      last status without checking for its absence, so one must be present. */
  function Print(p: Printer, dev: Device, src: Image): (r: Run)
    requires p.lastStatus.Some?
    ensures Job.PrintData(p.lastStatus.value, src).None? ==> r == Run(p, dev, Some(UnknownMedia))
    ensures r.Run? && r.err.None? ==>
      && Job.PrintData(p.lastStatus.value, src).Some?
      && r.dev.sent == dev.sent + Job.PrintData(p.lastStatus.value, src).value
      && r.p.lastStatus.Some? && ClassifyType(Type(r.p.lastStatus.value)) == PrintingCompleted
    ensures Job.PrintData(p.lastStatus.value, src).Some? ==>
      var w := Write(dev, Job.PrintData(p.lastStatus.value, src).value);
      && (w.WriteBlocked? ==> r.Blocked?)
      && (w.Written? && w.err.Some? ==> r == Run(p, w.dev, w.err))
      && (w.Written? && w.err.None? ==>
            var outs := PollAll(w.dev.incoming, PrintTimeoutMs);
            var k := FirstDecisive(outs);
            && (r.Blocked? <==> k < 0)
            && (r.Run? ==> r.err == PollVerdict(outs[k]).value))
  {
    match Job.PrintData(p.lastStatus.value, src)
    case None => Run(p, dev, Some(UnknownMedia))
    case Some(data) =>
      match Write(dev, data)
      case WriteBlocked => Blocked
      case Written(dev1, werr) =>
        if werr.Some? then Run(p, dev1, werr)
        else
          PrintLoopSuccess(p, dev1);
          PrintLoopVerdict(p, dev1);
          PrintLoop(p, dev1)
  }

  /** A successful print loop last received a PrintingCompleted status. */
  lemma {:induction false} PrintLoopSuccess(p: Printer, dev: Device)
    ensures var r := PrintLoop(p, dev);
      r.Run? && r.err.None? ==> r.p.lastStatus.Some? && ClassifyType(Type(r.p.lastStatus.value)) == PrintingCompleted
    decreases |dev.incoming|
  {
    match Poll(p, dev, PrintTimeoutMs)
    case PollRunBlocked =>
    case PollRun(q, dev1, result) =>
      if PollVerdict(result).None? {
        PrintLoopSuccess(q, dev1);
      }
  }

  // Discovery

  /** The 1024-byte buffer the device ID request fills. */
  type IdBuffer = b: seq<bv8> | |b| == DeviceId.BufferSize witness seq(1024, _ => 0 as bv8)

  /** One glob match: it fails to open, or it opens and the device ID
      request returns an error code or fills the buffer. */
  datatype Candidate = OpenFails | Opened(idRequest: Result<IdBuffer, int>)

  /** lpiocGetDeviceID: the ID bytes, or an error (the request failing, or
      the length prefix not fitting the buffer). */
  function GetDeviceId(c: Candidate): (r: Option<seq<bv8>>)
    requires c.Opened?
  {
    match c.idRequest
    case Err(_) => None
    case Ok(buf) =>
      var read := DeviceId.ReadDeviceId(buf);
      if read.trimmed then None else Some(read.data)
  }

  /** A candidate is taken when it opens, reports a complete device ID, and
      that ID lists the PT-CBP command set. */
  predicate Qualifies(c: Candidate)
  {
    c.Opened? && GetDeviceId(c).Some? && DeviceId.Compatible(DeviceId.Parse(GetDeviceId(c).value))
  }

  datatype Opening = Opening(chosen: Option<nat>, printer: Option<Printer>, closed: seq<nat>)

  /** Indices of the opened candidates among candidates[from..upto]. */
  function OpenedBetween(candidates: seq<Candidate>, from: nat, upto: nat): (r: seq<nat>)
    requires from <= upto <= |candidates|
    ensures forall i :: i in r <==> from <= i < upto && candidates[i].Opened?
    decreases upto - from
  {
    if from == upto then []
    else (if candidates[from].Opened? then [from] else []) + OpenedBetween(candidates, from + 1, upto)
  }

  /** The printer made from a qualifying candidate. */
  function PrinterFor(c: Candidate): Printer
    requires Qualifies(c)
  {
    var id := DeviceId.Parse(GetDeviceId(c).value);
    Printer(DeviceId.FindFirst(id, "MANUFACTURER", "MFG"), DeviceId.FindFirst(id, "MODEL", "MDL"),
            None, false, [])
  }

  function OpenFrom(candidates: seq<Candidate>, i: nat): (r: Opening)
    requires i <= |candidates|
    decreases |candidates| - i
  {
    if i == |candidates| then Opening(None, None, [])
    else if Qualifies(candidates[i]) then Opening(Some(i), Some(PrinterFor(candidates[i])), [])
    else
      var r := OpenFrom(candidates, i + 1);
      r.(closed := (if candidates[i].Opened? then [i] else []) + r.closed)
  }

  /** Open: the first glob match that qualifies becomes the printer, with
      manufacturer and model from its device ID; every candidate opened and
      rejected before it has been closed. No match is not an error; only a
      failing glob is. */
  function Open(glob: Result<seq<Candidate>, int>): (r: Result<Opening, Error>)
    ensures glob.Err? ==> r == Err(IoError(glob.error))
    ensures glob.Ok? ==> r.Ok?
    ensures glob.Ok? && r.value.chosen.Some? ==>
      var cs := glob.value;
      var i := r.value.chosen.value;
      && i < |cs| && Qualifies(cs[i])
      && (forall j :: 0 <= j < i ==> !Qualifies(cs[j]))
      && r.value.printer == Some(PrinterFor(cs[i]))
      && r.value.closed == OpenedBetween(cs, 0, i)
    ensures glob.Ok? && r.value.chosen.None? ==>
      var cs := glob.value;
      && (forall j :: 0 <= j < |cs| ==> !Qualifies(cs[j]))
      && r.value.printer.None?
      && r.value.closed == OpenedBetween(cs, 0, |cs|)
  {
    match glob
    case Err(e) => Err(IoError(e))
    case Ok(cs) =>
      OpenFromSpec(cs, 0);
      Ok(OpenFrom(cs, 0))
  }

  lemma {:induction false} OpenFromSpec(cs: seq<Candidate>, i: nat)
    requires i <= |cs|
    ensures OpenFrom(cs, i).chosen.Some? ==>
      && i <= OpenFrom(cs, i).chosen.value < |cs|
      && Qualifies(cs[OpenFrom(cs, i).chosen.value])
      && (forall j :: i <= j < OpenFrom(cs, i).chosen.value ==> !Qualifies(cs[j]))
      && OpenFrom(cs, i).printer == Some(PrinterFor(cs[OpenFrom(cs, i).chosen.value]))
      && OpenFrom(cs, i).closed == OpenedBetween(cs, i, OpenFrom(cs, i).chosen.value)
    ensures OpenFrom(cs, i).chosen.None? ==>
      && (forall j :: i <= j < |cs| ==> !Qualifies(cs[j]))
      && OpenFrom(cs, i).printer.None?
      && OpenFrom(cs, i).closed == OpenedBetween(cs, i, |cs|)
    decreases |cs| - i
  {
    if i < |cs| && !Qualifies(cs[i]) {
      OpenFromSpec(cs, i + 1);
      var r := OpenFrom(cs, i + 1);
      var upto := if r.chosen.Some? then r.chosen.value else |cs|;
      OpenedBetweenFront(cs, i, upto);
    }
  }

  lemma OpenedBetweenFront(cs: seq<Candidate>, i: nat, upto: nat)
    requires i < upto <= |cs|
    ensures OpenedBetween(cs, i, upto) == (if cs[i].Opened? then [i] else []) + OpenedBetween(cs, i + 1, upto)
  {
  }
}
