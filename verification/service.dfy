/** The stream service object: its running flag, the decoder process it
    owns, the last diagnostic error and the latest-frame slot. The decoder
    itself is outside the model; whether launching it succeeds is a
    parameter. */
module StreamService {
  import opened Opt
  import Scanner
  import opened FrameSlot
  import Diagnostics

  /** The decoder process handle: none yet, created but not started (its
      launch threw), started, or killed by `Dispose`. */
  datatype ProcessState = NoProcess | Created | Alive | Killed

  datatype Service = Service(
    isRunning: bool,
    process: ProcessState,
    sourceUrl: Option<string>,
    lastError: Option<string>,
    slot: Slot)

  /** A freshly constructed service. */
  const Fresh: Service := Service(false, NoProcess, None, None, Empty)

  /** Whether spawning the decoder succeeded, or the message it threw with. */
  datatype Launch = Launched | LaunchThrew(message: string)

  /** `Start` either returns or lets the launch exception escape; in both
      cases the service object has already been changed. */
  datatype StartResult = Started(service: Service) | StartThrew(service: Service, message: string)

  /** The message of the `ArgumentException` that `string.Replace` throws
      for an empty search string. */
  const EmptyUrlMessage: string := "String cannot be of zero length. (Parameter 'oldValue')"

  /** Start reading from `url`: nothing happens while the service is already
      running; otherwise the last error is cleared first. Masking the URL in
      the logged argument string throws for an empty URL, before any decoder
      process is created; for any other URL the decoder is spawned and the
      service runs only if the spawn succeeded. The frame slot is kept as it
      is. */
  function Start(s: Service, url: string, launch: Launch): (r: StartResult)
    ensures s.isRunning ==> r == Started(s)
    ensures !s.isRunning ==> r.service.lastError == None && r.service.slot == s.slot
    ensures !s.isRunning ==> (r.Started? <==> url != "" && launch.Launched?)
    ensures !s.isRunning && url == "" ==>
      r == StartThrew(s.(lastError := None), EmptyUrlMessage)
    ensures !s.isRunning && r.Started? ==>
      r.service.isRunning && r.service.process == Alive && r.service.sourceUrl == Some(url)
    ensures !s.isRunning && url != "" && launch.LaunchThrew? ==>
      r.StartThrew? && r.service.process == Created && r.message == launch.message
    ensures r.StartThrew? ==> !r.service.isRunning
  {
    if s.isRunning then Started(s)
    else if url == "" then StartThrew(s.(lastError := None), EmptyUrlMessage)
    else
      var cleared := s.(lastError := None, sourceUrl := Some(url), process := Created);
      match launch
      case Launched => Started(cleared.(process := Alive, isRunning := true))
      case LaunchThrew(message) => StartThrew(cleared, message)
  }

  /** A line arriving on the decoder's standard error. */
  function OnErrorData(s: Service, data: Option<string>): (r: Service)
    ensures r.(lastError := s.lastError) == s
    ensures Diagnostics.IsErrorLine(data) ==> r.lastError == data
    ensures !Diagnostics.IsErrorLine(data) ==> r.lastError == s.lastError
  {
    s.(lastError := Diagnostics.OnErrorData(s.lastError, data))
  }

  /** The latest frame, if there is one that is at most five seconds old. */
  function GetFrame(s: Service, now: int): Option<Scanner.Bytes>
  {
    FrameSlot.Get(s.slot, now)
  }

  /** Stop the reader, kill the decoder if it is alive (a failure to kill is
      swallowed) and release the handles. The stored frame bytes stay
      readable: a disposed memory stream still hands out its contents. */
  function Dispose(s: Service): (r: Service)
    ensures !r.isRunning && r.process != Alive
    ensures r.slot == s.slot && r.lastError == s.lastError && r.sourceUrl == s.sourceUrl
    ensures s.process != Alive ==> r.process == s.process
  {
    s.(isRunning := false, process := if s.process == Alive then Killed else s.process)
  }

  /** Disposing twice is the same as disposing once. */
  lemma DisposeIdempotent(s: Service)
    ensures Dispose(Dispose(s)) == Dispose(s)
  {
  }

  /** A new start on a stopped service forgets the error of the previous run. */
  lemma RestartClearsLastError(s: Service, line: string, url: string, launch: Launch)
    requires Diagnostics.IsErrorLine(Some(line))
    ensures OnErrorData(s, Some(line)).lastError == Some(line)
    ensures Start(Dispose(OnErrorData(s, Some(line))), url, launch).service.lastError == None
  {
  }
}
