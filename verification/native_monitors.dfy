/** NativeMonitorService: decoding what `GetMonitorInfo` and `GetDpiForMonitor` report
    for each monitor, and the cursor position with its fallbacks. */
module NativeMonitors {
  import opened Geometry
  import ScreenMapping

  /** `MONITORINFOF_PRIMARY` in `dwFlags`. */
  const MonitorInfoPrimary: bv32 := 0x1

  /** What the OS reports for one monitor handle, in `EnumDisplayMonitors` order:
      whether `GetMonitorInfo` succeeded and the `MONITORINFOEX` it filled in, and the
      result code and horizontal DPI of `GetDpiForMonitor`. */
  datatype NativeMonitor = NativeMonitor(
    infoOk: bool,
    rcMonitor: Win32Rect,
    rcWork: Win32Rect,
    dwFlags: bv32,
    szDevice: string,
    dpiResult: int,
    dpiX: nat)

  datatype MonitorInfo = MonitorInfo(
    deviceName: string,
    physicalBounds: PixelRect,
    workArea: PixelRect,
    scaleFactor: real,
    isPrimary: bool)

  /** `string.TrimEnd('\0')`: drop every trailing NUL character and nothing else. */
  function TrimTrailingNuls(s: string): (t: string)
    ensures t <= s
    ensures |t| == 0 || t[|t| - 1] != '\0'
    ensures forall i :: |t| <= i < |s| ==> s[i] == '\0'
  {
    if |s| == 0 || s[|s| - 1] != '\0' then s
    else TrimTrailingNuls(s[..|s| - 1])
  }

  /** Trimming is idempotent, and a name without trailing NULs is kept whole. */
  lemma {:induction false} TrimTrailingNulsIdempotent(s: string)
    ensures TrimTrailingNuls(TrimTrailingNuls(s)) == TrimTrailingNuls(s)
    ensures (|s| == 0 || s[|s| - 1] != '\0') ==> TrimTrailingNuls(s) == s
  {
  }

  /** The scale factor: dpiX / 96 only when `GetDpiForMonitor` returns exactly 0 (S_OK),
      otherwise 1.0. */
  function MonitorScale(m: NativeMonitor): (scale: real)
    ensures m.dpiResult == 0 ==> scale * 96.0 == m.dpiX as real
    ensures m.dpiResult != 0 ==> scale == 1.0
  {
    if m.dpiResult == 0 then m.dpiX as real / 96.0 else 1.0
  }

  /** `GetMonitorInfoEx`: None when `GetMonitorInfo` fails. */
  function GetMonitorInfoEx(m: NativeMonitor): (r: Option<MonitorInfo>)
    ensures r.None? <==> !m.infoOk
    ensures r.Some? ==>
      && r.value.deviceName == TrimTrailingNuls(m.szDevice)
      && r.value.physicalBounds == ToPixelRect(m.rcMonitor)
      && r.value.workArea == ToPixelRect(m.rcWork)
      && r.value.scaleFactor == MonitorScale(m)
      && (r.value.isPrimary <==> m.dwFlags & MonitorInfoPrimary != 0)
  {
    if !m.infoOk then None
    else
      Some(MonitorInfo(
        TrimTrailingNuls(m.szDevice),
        PixelRect(m.rcMonitor.left, m.rcMonitor.top, m.rcMonitor.Width(), m.rcMonitor.Height()),
        PixelRect(m.rcWork.left, m.rcWork.top, m.rcWork.Width(), m.rcWork.Height()),
        MonitorScale(m),
        m.dwFlags & MonitorInfoPrimary != 0))
  }

  /** The monitors whose `GetMonitorInfo` succeeds, in enumeration order. */
  function ReadableMonitors(ms: seq<NativeMonitor>): (r: seq<NativeMonitor>)
    ensures |r| <= |ms|
    ensures forall m :: m in r <==> m in ms && m.infoOk
  {
    if |ms| == 0 then []
    else if ms[0].infoOk then [ms[0]] + ReadableMonitors(ms[1..])
    else ReadableMonitors(ms[1..])
  }

  /** `EnumerateMonitors`: failed monitors are skipped, the rest keep their order. */
  function EnumerateMonitors(ms: seq<NativeMonitor>): (r: seq<MonitorInfo>)
    ensures |r| == |ReadableMonitors(ms)|
    ensures forall k :: 0 <= k < |r| ==> Some(r[k]) == GetMonitorInfoEx(ReadableMonitors(ms)[k])
  {
    if |ms| == 0 then []
    else match GetMonitorInfoEx(ms[0])
      case Some(info) =>
        var rest := EnumerateMonitors(ms[1..]);
        assert ReadableMonitors(ms) == [ms[0]] + ReadableMonitors(ms[1..]);
        [info] + rest
      case None => EnumerateMonitors(ms[1..])
  }

  /** `GetPhysicalCursorPosition`: the physical cursor if that query succeeds, otherwise
      `GetCursorPos`, otherwise the origin. Each argument is None when its call fails. */
  function PhysicalCursorPosition(physical: Option<PixelPoint>, fallback: Option<PixelPoint>): (p: PixelPoint)
    ensures physical.Some? ==> p == physical.value
    ensures physical.None? && fallback.Some? ==> p == fallback.value
    ensures physical.None? && fallback.None? ==> p == Origin
  {
    match physical
    case Some(q) => q
    case None =>
      match fallback
      case Some(q) => q
      case None => Origin
  }

  /** This service accepts a DPI only on S_OK, while ScreenMappingService accepts every
      non-negative HRESULT: whenever this one takes the DPI so does the other, and a
      positive success code such as S_FALSE (1) separates them. */
  lemma DpiAcceptanceStricterThanMapping(m: NativeMonitor)
    ensures m.dpiResult == 0 ==> ScreenMapping.Succeeded(m.dpiResult)
    ensures m.dpiResult == 1 ==> ScreenMapping.Succeeded(m.dpiResult) && MonitorScale(m) == 1.0
  {
  }
}
