/**
  The streaming state of `VideoStreamer` (server-control/src/video-utils.ts):
  the option defaults, the checks `startStream` makes before it configures an
  encoder command, the choice of capture device, and the `isStreaming` flag
  as the encoder's start, error and end events and `stopStream` move it.

  The ffmpeg process, its output stream and its arguments beyond device,
  size, frame rate and quality are not modelled; an encoder command is the
  record of what it was configured with, and events are inputs.
*/
module VideoStreamer {
  import opened Base
  import opened Text
  import opened DisplayScaling
  import opened Screenshot
  import opened DeviceReport

  /** The constructor's options; a field left out is `None`. */
  datatype StreamOptions = StreamOptions(fps: Option<int>, quality: Option<int>, resolution: Option<string>)

  /** The options with their defaults filled in; `quality` is the x264 CRF. */
  datatype Settings = Settings(fps: int, quality: int, resolution: string)

  const DefaultFps: int := 30
  const DefaultQuality: int := 23
  const DefaultResolution: string := "native"

  /** `options.x ?? default` for each field: a given value is kept, even 0 or "". */
  function SettingsOf(o: StreamOptions): (s: Settings)
    ensures s.fps == (if o.fps.Some? then o.fps.value else DefaultFps)
    ensures s.quality == (if o.quality.Some? then o.quality.value else DefaultQuality)
    ensures s.resolution == (if o.resolution.Some? then o.resolution.value else DefaultResolution)
  {
    Settings(
      match o.fps case Some(f) => f case None => DefaultFps,
      match o.quality case Some(q) => q case None => DefaultQuality,
      match o.resolution case Some(r) => r case None => DefaultResolution)
  }

  /** What the encoder command is configured with: input `<index>:none`, output size, rate and CRF. */
  datatype EncoderCommand = EncoderCommand(input: string, width: Extent, height: Extent, fps: int, crf: int)

  /** The streamer's fields that decide its behaviour. */
  datatype Streamer = Streamer(settings: Settings, command: Option<EncoderCommand>, isStreaming: bool)

  /** `new VideoStreamer(options)`: no command and not streaming. */
  function NewStreamer(o: StreamOptions): (s: Streamer)
    ensures s.command.None? && !s.isStreaming
  {
    Streamer(SettingsOf(o), None, false)
  }

  /** `isStreamingActive()`: a read of the flag. */
  function IsStreamingActive(s: Streamer): bool {
    s.isStreaming
  }

  /** One entry of `systeminformation.graphics().displays`; an absent size is `None`. */
  datatype GraphicsDisplay = GraphicsDisplay(main: bool, resolutionX: Option<nat>, resolutionY: Option<nat>)

  predicate IsMainGraphics(d: GraphicsDisplay) {
    d.main
  }

  /** A size that passes `!width`: present and not zero. */
  predicate Truthy(n: Option<nat>) {
    n.Some? && n.value > 0
  }

  /** Why `startStream` rejects. */
  datatype StartError =
    | NoMainDisplay
    | NoScreenSize
    | DeviceListFailed(message: string)
    | NoCaptureDevice
    | TooFewDevices(count: nat)
    | ProbeFailed(message: string)

  /** The message of the error `startStream` rejects with. */
  function Message(e: StartError): string {
    match e
    case NoMainDisplay => "未找到主显示器"
    case NoScreenSize => "无法获取屏幕尺寸"
    case DeviceListFailed(m) => m
    case NoCaptureDevice => "未找到可用的视频捕获设备"
    case TooFewDevices(n) => "需要至少2个视频设备，当前找到" + NatToDigits(n) + "个"
    case ProbeFailed(m) => m
  }

  /** `devices.filter(d => d.type === 'video')`. */
  function VideoDevices(ds: seq<Device>): (vs: seq<Device>)
    ensures |vs| <= |ds|
    ensures forall i :: 0 <= i < |vs| ==> vs[i].kind == Video
  {
    if |ds| == 0 then []
    else VideoDevices(ds[..|ds| - 1]) + (if ds[|ds| - 1].kind == Video then [ds[|ds| - 1]] else [])
  }

  /** The filter keeps exactly the video devices. */
  lemma {:induction false} VideoDevicesMembers(ds: seq<Device>, d: Device)
    ensures d in VideoDevices(ds) <==> d in ds && d.kind == Video
  {
    if |ds| > 0 {
      var init := ds[..|ds| - 1];
      VideoDevicesMembers(init, d);
      assert ds == init + [ds[|ds| - 1]];
    }
  }

  /** The positions of the listing that hold a video device. */
  function VideoPositions(ds: seq<Device>): set<nat> {
    set k: nat | k < |ds| && ds[k].kind == Video
  }

  /** The filter keeps one device per video position of the listing, so it counts them. */
  lemma {:induction false} VideoDevicesCount(ds: seq<Device>)
    ensures |VideoDevices(ds)| == |VideoPositions(ds)|
  {
    if |ds| > 0 {
      var n := |ds| - 1;
      var init := ds[..n];
      VideoDevicesCount(init);
      assert forall k :: 0 <= k < n ==> init[k] == ds[k];
      if ds[n].kind == Video {
        assert VideoPositions(ds) == VideoPositions(init) + {n};
        assert n !in VideoPositions(init);
      } else {
        assert VideoPositions(ds) == VideoPositions(init);
      }
    }
  }

  /** A listing with exactly one video device, at `j`, is refused with "found 1". */
  lemma OneVideoDeviceTooFew(ds: seq<Device>, j: nat)
    requires j < |ds| && ds[j].kind == Video
    requires forall i :: 0 <= i < |ds| && i != j ==> ds[i].kind != Video
    ensures SelectDevice(VideoDevices(ds)) == Err(TooFewDevices(1))
  {
    VideoDevicesCount(ds);
    assert VideoPositions(ds) == {j};
  }

  /** Devices past `k` that are not video devices add nothing to the filter. */
  lemma {:induction false} NoVideoBetween(ds: seq<Device>, k: nat, m: nat)
    requires k <= m <= |ds|
    requires forall i :: k <= i < m ==> ds[i].kind != Video
    ensures VideoDevices(ds[..m]) == VideoDevices(ds[..k])
    decreases m - k
  {
    if k < m {
      NoVideoBetween(ds, k, m - 1);
      assert ds[..m][..m - 1] == ds[..m - 1];
    }
  }

  /** Filtering a longer prefix extends the filtered shorter one. */
  lemma {:induction false} VideoDevicesPrefix(ds: seq<Device>, k: nat)
    requires k <= |ds|
    ensures VideoDevices(ds[..k]) <= VideoDevices(ds)
    decreases |ds| - k
  {
    if k < |ds| {
      VideoDevicesPrefix(ds[..|ds| - 1], k);
      assert ds[..|ds| - 1][..k] == ds[..k];
    } else {
      assert ds[..k] == ds;
    }
  }

  /**
    The device `startStream` picks from the filtered list: none of zero,
    none of one, otherwise the second.
  */
  function SelectDevice(videos: seq<Device>): (r: Result<Device, StartError>)
    ensures |videos| == 0 ==> r == Err(NoCaptureDevice)
    ensures |videos| == 1 ==> r == Err(TooFewDevices(1))
    ensures |videos| >= 2 ==> r == Ok(videos[1])
  {
    if |videos| == 0 then Err(NoCaptureDevice)
    else if |videos| < 2 then Err(TooFewDevices(|videos|))
    else Ok(videos[1])
  }

  /**
    With video devices at `i < j` and no other video device before `j`, the
    one at `j` is chosen, whatever audio devices surround them.
  */
  lemma SecondVideoDeviceChosen(ds: seq<Device>, i: nat, j: nat)
    requires i < j < |ds| && ds[i].kind == Video && ds[j].kind == Video
    requires forall k :: 0 <= k < j && k != i ==> ds[k].kind != Video
    ensures SelectDevice(VideoDevices(ds)) == Ok(ds[j])
  {
    FirstTwoVideoDevices(ds, i, j);
    SecondOfPrefix(ds, j + 1, ds[i], ds[j]);
  }

  /** The filter of the devices up to `j` holds the two video devices at `i` and `j`. */
  lemma FirstTwoVideoDevices(ds: seq<Device>, i: nat, j: nat)
    requires i < j < |ds| && ds[i].kind == Video && ds[j].kind == Video
    requires forall k :: 0 <= k < j && k != i ==> ds[k].kind != Video
    ensures VideoDevices(ds[..j + 1]) == [ds[i], ds[j]]
  {
    assert ds[..0] == [];
    NoVideoBetween(ds, 0, i);
    VideoDevicesStep(ds, i);
    NoVideoBetween(ds, i + 1, j);
    VideoDevicesStep(ds, j);
  }

  /** When a prefix filters to two devices, the second of them is the one chosen. */
  lemma SecondOfPrefix(ds: seq<Device>, m: nat, a: Device, b: Device)
    requires m <= |ds| && VideoDevices(ds[..m]) == [a, b]
    ensures SelectDevice(VideoDevices(ds)) == Ok(b)
  {
    VideoDevicesPrefix(ds, m);
    var vs := VideoDevices(ds);
    assert [a, b] == vs[..2];
    assert vs[1] == vs[..2][1] == b;
  }

  /** One more device adds itself to the filter when it is a video device. */
  lemma VideoDevicesStep(ds: seq<Device>, k: nat)
    requires k < |ds|
    ensures VideoDevices(ds[..k + 1]) == VideoDevices(ds[..k]) + (if ds[k].kind == Video then [ds[k]] else [])
  {
    assert ds[..k + 1][..k] == ds[..k];
  }

  /** What `startStream` reads from its surroundings. */
  datatype StartEnv = StartEnv(
    displays: seq<GraphicsDisplay>,         // systeminformation.graphics().displays
    report: ProfilerReport,                 // the display query behind getDisplayScaling
    deviceOutput: Result<string, string>,   // ffmpeg's device listing, or what running it threw
    probe: Option<string>                   // the test run: None when it ends, else its error message
  )

  datatype StartOutcome =
    | AlreadyStreaming
    | Launched(command: EncoderCommand)
    | Failed(error: StartError)

  datatype StartResult = StartResult(state: Streamer, outcome: StartOutcome)

  /**
    `startStream()`. While streaming it returns the existing stream and
    changes nothing. Otherwise it needs a main display with a non-zero size
    and a device listing with at least two video devices; it then configures
    the encoder on the second video device at the logical size (physical
    size over the display scale, rounded down), and runs a test copy: when
    the test fails the promise rejects with the test's error, the new
    command staying configured; otherwise the command is started. Any
    earlier failure leaves the streamer as it was.
  */
  function StartStream(s: Streamer, env: StartEnv): (r: StartResult)
    ensures s.isStreaming ==> r == StartResult(s, AlreadyStreaming)
    ensures r.state.settings == s.settings && r.state.isStreaming == s.isStreaming
    ensures r.outcome.Failed? && !r.outcome.error.ProbeFailed? ==> r.state == s
    ensures r.outcome.Launched? ==> r.state.command == Some(r.outcome.command)
    ensures r.outcome.Failed? && r.outcome.error.ProbeFailed? ==> r.state.command.Some?
  {
    if s.isStreaming then StartResult(s, AlreadyStreaming)
    else
      match FindFirst(env.displays, IsMainGraphics)
      case None => StartResult(s, Failed(NoMainDisplay))
      case Some(k) =>
        var main := env.displays[k];
        var scaling := GetDisplayScaling(env.report);
        if !Truthy(main.resolutionX) || !Truthy(main.resolutionY) then StartResult(s, Failed(NoScreenSize))
        else
          match ListDevices(env.deviceOutput)
          case Err(m) => StartResult(s, Failed(DeviceListFailed(m)))
          case Ok(devices) =>
            match SelectDevice(VideoDevices(devices))
            case Err(e) => StartResult(s, Failed(e))
            case Ok(device) =>
              var command := EncoderCommand(
                device.index + ":none",
                LogicalExtent(main.resolutionX.value, scaling.x),
                LogicalExtent(main.resolutionY.value, scaling.y),
                s.settings.fps, s.settings.quality);
              var configured := s.(command := Some(command));
              match env.probe
              case Some(m) => StartResult(configured, Failed(ProbeFailed(m)))
              case None => StartResult(configured, Launched(command))
  }

  /** The main display of the graphics query and its size, when the size passes the check. */
  predicate HasScreenSize(env: StartEnv) {
    && FindFirst(env.displays, IsMainGraphics).Some?
    && var main := env.displays[FindFirst(env.displays, IsMainGraphics).value];
       Truthy(main.resolutionX) && Truthy(main.resolutionY)
  }

  /** The video devices the listing yields, when it yields any list. */
  function ListedVideo(env: StartEnv): seq<Device>
    requires env.deviceOutput.Ok?
  {
    VideoDevices(ParseDevices(env.deviceOutput.value))
  }

  /**
    The encoder is started exactly when the streamer is idle, a main display
    with a non-zero size exists, the device listing succeeds with at least
    two video devices, and the test run ends; the command then captures the
    second video device, at the logical size, with the configured rate and
    quality.
  */
  lemma LaunchConditions(s: Streamer, env: StartEnv)
    ensures StartStream(s, env).outcome.Launched? <==>
              && !s.isStreaming && HasScreenSize(env)
              && env.deviceOutput.Ok? && |ListedVideo(env)| >= 2
              && env.probe.None?
    ensures StartStream(s, env).outcome.Launched? ==>
              var main := env.displays[FindFirst(env.displays, IsMainGraphics).value];
              var scaling := GetDisplayScaling(env.report);
              StartStream(s, env).outcome.command == EncoderCommand(
                ListedVideo(env)[1].index + ":none",
                LogicalExtent(main.resolutionX.value, scaling.x),
                LogicalExtent(main.resolutionY.value, scaling.y),
                s.settings.fps, s.settings.quality)
  {
  }

  /** The error of each failed check, in the order the checks are made. */
  lemma FailureOrder(s: Streamer, env: StartEnv)
    requires !s.isStreaming
    ensures FindFirst(env.displays, IsMainGraphics).None? ==> StartStream(s, env).outcome == Failed(NoMainDisplay)
    ensures FindFirst(env.displays, IsMainGraphics).Some? && !HasScreenSize(env) ==>
              StartStream(s, env).outcome == Failed(NoScreenSize)
    ensures HasScreenSize(env) && env.deviceOutput.Err? ==>
              StartStream(s, env).outcome == Failed(DeviceListFailed(ListFailedPrefix + env.deviceOutput.error))
    ensures HasScreenSize(env) && env.deviceOutput.Ok? && |ListedVideo(env)| == 0 ==>
              StartStream(s, env).outcome == Failed(NoCaptureDevice)
    ensures HasScreenSize(env) && env.deviceOutput.Ok? && |ListedVideo(env)| == 1 ==>
              StartStream(s, env).outcome == Failed(TooFewDevices(1))
              && Message(TooFewDevices(1)) == "需要至少2个视频设备，当前找到1个"
    ensures HasScreenSize(env) && env.deviceOutput.Ok? && |ListedVideo(env)| >= 2 && env.probe.Some? ==>
              StartStream(s, env).outcome == Failed(ProbeFailed(env.probe.value))
  {
    if FindFirst(env.displays, IsMainGraphics).None? {
    } else if !HasScreenSize(env) {
    } else if env.deviceOutput.Err? {
    } else if |ListedVideo(env)| < 2 {
    } else {
    }
  }

  /**
    On an idle streamer with a sized main display, a listing that holds
    exactly one video device, whatever audio devices surround it, stops the
    call with "需要至少2个视频设备，当前找到1个".
  */
  lemma OneListedVideoDeviceFails(s: Streamer, env: StartEnv, j: nat)
    requires !s.isStreaming && HasScreenSize(env) && env.deviceOutput.Ok?
    requires var ds := ParseDevices(env.deviceOutput.value);
             j < |ds| && ds[j].kind == Video && forall i :: 0 <= i < |ds| && i != j ==> ds[i].kind != Video
    ensures StartStream(s, env).outcome == Failed(TooFewDevices(1))
    ensures Message(TooFewDevices(1)) == "需要至少2个视频设备，当前找到1个"
  {
    var ds := ParseDevices(env.deviceOutput.value);
    OneVideoDeviceTooFew(ds, j);
    FailureOrder(s, env);
  }

  /** An event of the configured encoder. */
  datatype EncoderEvent = Started | Errored(message: string) | Ended | StderrLine(line: string)

  /** The handlers: start sets the flag, error and end clear it, stderr lines change nothing. */
  function OnEvent(s: Streamer, e: EncoderEvent): (t: Streamer)
    ensures t.settings == s.settings && t.command == s.command
  {
    match e
    case Started => s.(isStreaming := true)
    case Errored(_) => s.(isStreaming := false)
    case Ended => s.(isStreaming := false)
    case StderrLine(_) => s
  }

  datatype StopResult = StopResult(state: Streamer, killed: bool)

  /**
    `stopStream()`: the command is killed exactly when streaming with a
    command, and only then is the flag cleared.
  */
  function StopStream(s: Streamer): (r: StopResult)
    ensures r.killed <==> s.isStreaming && s.command.Some?
    ensures r.state.isStreaming <==> s.isStreaming && s.command.None?
    ensures r.state.command == s.command && r.state.settings == s.settings
  {
    if s.isStreaming && s.command.Some? then StopResult(s.(isStreaming := false), true)
    else StopResult(s, false)
  }

  /** What can happen to a streamer: a call of `startStream` or `stopStream`, or an encoder event. */
  datatype Step = Start(env: StartEnv) | Event(event: EncoderEvent) | Stop

  function Apply(s: Streamer, step: Step): Streamer {
    match step
    case Start(env) => StartStream(s, env).state
    case Event(e) => OnEvent(s, e)
    case Stop => StopStream(s).state
  }

  /** The streamer after the steps, in order. */
  function Run(s: Streamer, steps: seq<Step>): Streamer
    decreases |steps|
  {
    if |steps| == 0 then s else Apply(Run(s, steps[..|steps| - 1]), steps[|steps| - 1])
  }

  /** Encoder events only come from a configured command: none arrives before the first one exists. */
  predicate EventsHaveCommand(s: Streamer, steps: seq<Step>) {
    forall k :: 0 <= k < |steps| && steps[k].Event? ==> Run(s, steps[..k]).command.Some?
  }

  /** The flag's value set by a step, or `None` for a step that leaves it alone. */
  function FlagSetBy(step: Step): Option<bool> {
    match step
    case Start(_) => None
    case Event(Started) => Some(true)
    case Event(Errored(_)) => Some(false)
    case Event(Ended) => Some(false)
    case Event(StderrLine(_)) => None
    case Stop => Some(false)
  }

  /** The flag's value set by the last step that sets it, if any. */
  function LastFlag(steps: seq<Step>): Option<bool>
    decreases |steps|
  {
    if |steps| == 0 then None
    else if FlagSetBy(steps[|steps| - 1]).Some? then FlagSetBy(steps[|steps| - 1])
    else LastFlag(steps[..|steps| - 1])
  }

  /** A streaming streamer has a command: the flag is only set by a command's start event. */
  predicate Consistent(s: Streamer) {
    s.isStreaming ==> s.command.Some?
  }

  lemma ApplyKeepsConsistent(s: Streamer, step: Step)
    requires Consistent(s) && (step.Event? ==> s.command.Some?)
    ensures Consistent(Apply(s, step))
  {
  }

  /**
    The flag after any sequence of calls and events is the one the last
    flag-setting step left: true after a start event, false after an error
    or end event or a `stopStream`, and unchanged when no step sets it —
    `startStream` never sets it. Along the way a streaming streamer always
    has a command to kill.
  */
  lemma {:induction false} FlagFollowsLastSetter(s: Streamer, steps: seq<Step>)
    requires Consistent(s) && EventsHaveCommand(s, steps)
    ensures Consistent(Run(s, steps))
    ensures Run(s, steps).isStreaming == (match LastFlag(steps) case Some(b) => b case None => s.isStreaming)
    decreases |steps|
  {
    if |steps| > 0 {
      var init := steps[..|steps| - 1];
      var last := steps[|steps| - 1];
      forall k | 0 <= k < |init| && init[k].Event?
        ensures Run(s, init[..k]).command.Some?
      {
        assert init[..k] == steps[..k];
      }
      FlagFollowsLastSetter(s, init);
      var before := Run(s, init);
      assert last.Event? ==> before.command.Some? by {
        assert steps[..|steps| - 1] == init;
      }
      ApplyKeepsConsistent(before, last);
      assert LastFlag(steps) == if FlagSetBy(last).Some? then FlagSetBy(last) else LastFlag(init);
      assert Apply(before, last).isStreaming
             == match FlagSetBy(last) case Some(b) => b case None => before.isStreaming;
    }
  }

  /** A fresh streamer streams only after a start event that no error, end or stop followed. */
  lemma FreshStreamerFlag(o: StreamOptions, steps: seq<Step>)
    requires EventsHaveCommand(NewStreamer(o), steps)
    ensures IsStreamingActive(Run(NewStreamer(o), steps)) <==> LastFlag(steps) == Some(true)
  {
    FlagFollowsLastSetter(NewStreamer(o), steps);
  }

  /** For a consistent streamer, `stopStream` always leaves the flag cleared. */
  lemma StopAlwaysClears(s: Streamer)
    requires Consistent(s)
    ensures !StopStream(s).state.isStreaming
  {
  }
}
