/** The web controller: one process-wide slot for the current stream
    service, and the `Start`, `Stop` and `Frame` actions, as pure functions
    from the slot and what the action observes to a new slot and a reply. */
module Video {
  import opened Opt
  import Scanner
  import opened StreamService
  import Credentials

  /** The reply objects: a JSON `{ success, error }`, a 404, or a JPEG
      file sent with caching disabled. */
  datatype Reply = Json(success: bool, error: Option<string>) | NotFound | JpegFile(content: Scanner.Bytes)

  /** The static `_streamService` slot. */
  datatype Controller = Controller(service: Option<Service>)

  /** The controller after an action, its reply, and the service it
      replaced, already disposed (its read loop then halts). */
  datatype Handled = Handled(controller: Controller, reply: Reply, retired: Option<Service>)

  /** `_streamService?.Dispose()`. */
  function Retire(c: Controller): (r: Option<Service>)
    ensures r.Some? <==> c.service.Some?
    ensures r.Some? ==> r.value == Dispose(c.service.value)
  {
    match c.service
    case None => None
    case Some(s) => Some(Dispose(s))
  }

  /** The start action polls twenty times, half a second apart. */
  const PollAttempts: nat := 20

  const TimeoutMessage: string := "Таймаут ожидания видео"

  /** What one poll sees: the service's fresh frame, if any, and its last error. */
  datatype Observation = Observation(frame: Option<Scanner.Bytes>, lastError: Option<string>)

  function Observe(s: Service, now: int): Observation
  {
    Observation(GetFrame(s, now), s.lastError)
  }

  /** `!string.IsNullOrEmpty(text)`. */
  predicate HasText(text: Option<string>)
  {
    text.Some? && |text.value| > 0
  }

  /** No poll in `from .. to` saw a frame or an error. */
  ghost predicate Undecided(obs: seq<Observation>, from: int, to: int)
  {
    forall j :: from <= j < to && 0 <= j < |obs| ==> obs[j].frame.None? && !HasText(obs[j].lastError)
  }

  datatype PollOutcome = FrameReady | ErrorReported(message: string) | TimedOut

  /** Polls `i` onwards: each poll first asks for a frame, then for an error. */
  function PollFrom(obs: seq<Observation>, i: nat): (r: PollOutcome)
    requires |obs| == PollAttempts && i <= PollAttempts
    ensures r.ErrorReported? ==> |r.message| > 0
    decreases PollAttempts - i
  {
    if i == PollAttempts then TimedOut
    else if obs[i].frame.Some? then FrameReady
    else if HasText(obs[i].lastError) then ErrorReported(obs[i].lastError.value)
    else PollFrom(obs, i + 1)
  }

  /** Polling succeeds exactly when some poll sees a frame and no earlier
      poll saw a frame or a non-empty error. */
  lemma {:induction false} PollFromFrame(obs: seq<Observation>, i: nat)
    requires |obs| == PollAttempts && i <= PollAttempts
    ensures PollFrom(obs, i).FrameReady? <==>
      exists k :: i <= k < |obs| && obs[k].frame.Some? && Undecided(obs, i, k)
    decreases PollAttempts - i
  {
    if i < PollAttempts {
      if obs[i].frame.Some? {
        assert Undecided(obs, i, i);
      } else {
        PollFromFrame(obs, i + 1);
        if HasText(obs[i].lastError) {
          assert forall k :: i < k < |obs| ==> !Undecided(obs, i, k) by {
            forall k | i < k < |obs| ensures !Undecided(obs, i, k) {
              assert i <= i < k;
            }
          }
        }
      }
    }
  }

  /** Polling reports an error exactly when some poll sees no frame but a
      non-empty error and no earlier poll saw either, and the message is
      that poll's error text. */
  lemma {:induction false} PollFromError(obs: seq<Observation>, i: nat)
    requires |obs| == PollAttempts && i <= PollAttempts
    ensures PollFrom(obs, i).ErrorReported? <==>
      exists k :: i <= k < |obs| && obs[k].frame.None? && HasText(obs[k].lastError) && Undecided(obs, i, k)
    ensures PollFrom(obs, i).ErrorReported? ==>
      exists k :: && i <= k < |obs| && obs[k].frame.None? && HasText(obs[k].lastError)
                  && obs[k].lastError == Some(PollFrom(obs, i).message) && Undecided(obs, i, k)
    decreases PollAttempts - i
  {
    if i < PollAttempts {
      if obs[i].frame.Some? {
        assert forall k :: i < k < |obs| ==> !Undecided(obs, i, k) by {
          forall k | i < k < |obs| ensures !Undecided(obs, i, k) {
            assert i <= i < k;
          }
        }
      } else if HasText(obs[i].lastError) {
        assert Undecided(obs, i, i);
      } else {
        PollFromError(obs, i + 1);
      }
    }
  }

  /** Polling times out exactly when no poll sees a frame or a non-empty error. */
  lemma {:induction false} PollFromTimeout(obs: seq<Observation>, i: nat)
    requires |obs| == PollAttempts && i <= PollAttempts
    ensures PollFrom(obs, i).TimedOut? <==> Undecided(obs, i, |obs|)
    decreases PollAttempts - i
  {
    if i < PollAttempts && obs[i].frame.None? && !HasText(obs[i].lastError) {
      PollFromTimeout(obs, i + 1);
    }
  }

  /** The twenty polls of the start action, the first one half a second after launch. */
  function Poll(obs: seq<Observation>): PollOutcome
    requires |obs| == PollAttempts
  {
    PollFrom(obs, 0)
  }

  /** A poll that sees both a frame and an error reports success. */
  lemma FrameCheckedBeforeError(obs: seq<Observation>)
    requires |obs| == PollAttempts
    requires obs[0].frame.Some? && HasText(obs[0].lastError)
    ensures Poll(obs) == FrameReady
  {
  }

  /** The start action: retire the old service, put a fresh one in the slot,
      build the URL, start the service and poll it. Any exception (a null
      password, an empty URL, a failed launch) becomes a failure reply carrying its
      message. The observations are what the polls see of the new service
      while its read loop runs concurrently. */
  function Start(c: Controller, rtspUrl: string, username: Option<string>, password: Option<string>,
                 launch: Launch, obs: seq<Observation>): (h: Handled)
    requires |obs| == PollAttempts
    ensures h.retired == Retire(c) && h.controller.service.Some? && h.reply.Json?
    ensures h.reply.success <==>
      && Credentials.BuildUrl(rtspUrl, username, password).Ok?
      && Credentials.BuildUrl(rtspUrl, username, password).value != ""
      && launch.Launched? && Poll(obs).FrameReady?
    ensures h.reply.success ==> h.reply.error.None?
    ensures !h.reply.success ==> h.reply.error.Some?
    ensures Credentials.BuildUrl(rtspUrl, username, password).Err? ==>
      h.controller.service == Some(Fresh) && h.reply.error == Some(Credentials.BuildUrl(rtspUrl, username, password).message)
    ensures Credentials.BuildUrl(rtspUrl, username, password).Ok? ==>
      h.controller.service.value.lastError.None?
    ensures Credentials.BuildUrl(rtspUrl, username, password) == Ok("") ==>
      h.controller.service == Some(Fresh) && h.reply == Json(false, Some(EmptyUrlMessage))
    ensures Credentials.BuildUrl(rtspUrl, username, password).Ok? && Credentials.BuildUrl(rtspUrl, username, password).value != "" ==>
      h.controller.service.value.sourceUrl == Some(Credentials.BuildUrl(rtspUrl, username, password).value)
    ensures launch.LaunchThrew? && Credentials.BuildUrl(rtspUrl, username, password).Ok?
            && Credentials.BuildUrl(rtspUrl, username, password).value != "" ==>
      h.reply == Json(false, Some(launch.message))
    ensures launch.Launched? && Credentials.BuildUrl(rtspUrl, username, password).Ok?
            && Credentials.BuildUrl(rtspUrl, username, password).value != "" && Poll(obs).ErrorReported? ==>
      h.reply == Json(false, Some(Poll(obs).message))
    ensures launch.Launched? && Credentials.BuildUrl(rtspUrl, username, password).Ok?
            && Credentials.BuildUrl(rtspUrl, username, password).value != "" && Poll(obs).TimedOut? ==>
      h.reply == Json(false, Some(TimeoutMessage))
  {
    var retired := Retire(c);
    match Credentials.BuildUrl(rtspUrl, username, password)
    case Err(message) => Handled(Controller(Some(Fresh)), Json(false, Some(message)), retired)
    case Ok(fullUrl) =>
      match StreamService.Start(Fresh, fullUrl, launch)
      case StartThrew(s, message) => Handled(Controller(Some(s)), Json(false, Some(message)), retired)
      case Started(s) =>
        var reply := match Poll(obs)
          case FrameReady => Json(true, None)
          case ErrorReported(message) => Json(false, Some(message))
          case TimedOut => Json(false, Some(TimeoutMessage));
        Handled(Controller(Some(s)), reply, retired)
  }

  /** The stop action always succeeds and leaves the slot empty. */
  function Stop(c: Controller): (h: Handled)
    ensures h.controller.service.None? && h.reply == Json(true, None) && h.retired == Retire(c)
  {
    Handled(Controller(None), Json(true, None), Retire(c))
  }

  /** The frame action: the latest fresh frame, or 404 when there is no
      service or no fresh frame. */
  function Frame(c: Controller, now: int): (r: Reply)
    ensures r.NotFound? || r.JpegFile?
    ensures r.NotFound? <==> c.service.None? || GetFrame(c.service.value, now).None?
    ensures r.JpegFile? ==> Some(r.content) == GetFrame(c.service.value, now)
  {
    match c.service
    case None => NotFound
    case Some(s) =>
      match GetFrame(s, now)
      case None => NotFound
      case Some(bytes) => JpegFile(bytes)
  }

  /** After a stop no frame is served, at any time. */
  lemma StopThenFrameIsNotFound(c: Controller, now: int)
    ensures Frame(Stop(c).controller, now) == NotFound
  {
  }

  /** Stopping twice leaves the controller as stopping once, and both replies report success. */
  lemma StopTwice(c: Controller)
    ensures Stop(Stop(c).controller).controller == Stop(c).controller
    ensures Stop(Stop(c).controller).reply == Stop(c).reply == Json(true, None)
    ensures Stop(Stop(c).controller).retired.None?
  {
  }

  /** A service that has just been started serves no frame until its read
      loop publishes one, so the first poll of a fresh start cannot succeed
      on a stale slot. */
  lemma FreshServiceHasNoFrame(url: string, launch: Launch, now: int)
    ensures GetFrame(StreamService.Start(Fresh, url, launch).service, now).None?
  {
  }
}
