/**
  The renderer's events: each fits the line budget, is one line of JSON, and
  echoes a valid preset name exactly.
*/
module PresetNames {
  import opened Sanitizer

  const MAX_NAME: nat := 1024

  // From just behind a slash, or the start, to the next slash or the end.
  predicate IsSegment(f: string, i: nat, j: nat) {
    && i <= j <= |f|
    && (i == 0 || f[i - 1] == '/') && (j == |f| || f[j] == '/')
    && '/' !in f[i..j]
  }

  predicate BadSegment(seg: string) { seg == ".." || seg == "." || seg == "" }

  predicate HasExtension(f: string) { |f| >= 6 && f[|f| - 5..] == ".milk" }

  // A file name the manifest may hold.
  ghost predicate ValidName(f: string) {
    && |f| <= MAX_NAME && HasExtension(f) && f[0] != '/'
    && Printable(f)
    && (forall i: nat, j: nat :: IsSegment(f, i, j) ==> !BadSegment(f[i..j]))
    && |Sanitize(f, MAX_NAME)| == |f|
  }

  method FindSlash(f: string, from: nat) returns (at: nat)
    requires from <= |f|
    ensures from <= at <= |f| && '/' !in f[from..at] && (at < |f| ==> f[at] == '/')
  {
    at := from;
    while at < |f| && f[at] != '/'
      invariant from <= at <= |f| && '/' !in f[from..at]
    {
      assert f[from..at + 1] == f[from..at] + [f[at]];
      at := at + 1;
    }
  }

  method ValidPresetFile(f: string) returns (ok: bool)
    ensures ok <==> ValidName(f)
  {
    if f == "" || |f| > MAX_NAME || f[0] == '/' || !HasExtension(f) {
      return false;
    }
    for k := 0 to |f|
      invariant forall i :: 0 <= i < k ==> Clean(f[i])
    {
      if !Clean(f[k]) {
        return false;
      }
    }
    ok := SegmentsAreGood(f);
    if ok {
      var text := SanitizeText(f, MAX_NAME);
      return |text| == |f|;
    }
  }

  method SegmentsAreGood(f: string) returns (ok: bool)
    ensures ok <==> forall i: nat, j: nat :: IsSegment(f, i, j) ==> !BadSegment(f[i..j])
  {
    var start := 0;
    while start <= |f|
      invariant start <= |f| + 1 && (0 < start <= |f| ==> f[start - 1] == '/')
      invariant forall i: nat, j: nat :: i < start && IsSegment(f, i, j) ==> !BadSegment(f[i..j])
    {
      var slash := FindSlash(f, start);
      if BadSegment(f[start..slash]) {
        assert IsSegment(f, start, slash);
        return false;
      }
      forall i: nat, j: nat | start <= i <= slash && IsSegment(f, i, j)
        ensures !BadSegment(f[i..j])
      {
        SegmentIs(f, start, slash, i, j);
      }
      if slash == |f| {
        break;
      }
      start := slash + 1;
    }
    return true;
  }

  // The one segment that begins in a stretch without slashes.
  lemma SegmentIs(f: string, start: nat, slash: nat, i: nat, j: nat)
    requires IsSegment(f, start, slash) && start <= i <= slash && IsSegment(f, i, j)
    ensures i == start && j == slash
  {
    if i > start {
      NoSlashAt(f, start, slash, i - 1);
    }
    if j < slash {
      NoSlashAt(f, start, slash, j);
    } else if slash < j {
      NoSlashAt(f, i, j, slash);
    }
  }

  lemma NoSlashAt(f: string, i: int, j: int, k: int)
    requires 0 <= i <= k < j <= |f| && '/' !in f[i..j]
    ensures f[k] != '/'
  {
    assert f[k] == f[i..j][k - i];
  }

  // The name is its own sanitised text.
  lemma ValidNameIsKept(f: string)
    requires ValidName(f)
    ensures Sanitize(f, MAX_NAME) == f
  {
    assert f[..0] == "";
    SameLengthIsKept(f, 0, MAX_NAME);
  }
}

module RendererEvents {
  import opened EventLines
  import opened JsonEscape
  import opened JsonText
  import opened PresetNames
  import opened Sanitizer
  import opened Wrappers

  // What is sent; reals come as printed, and one that is not known is absent.
  datatype Event =
    | Simple(name: string)
    | Prepared(mode: string, connector: string, modeSource: string, glRenderer: string, glVersion: string,
               gles2: bool, presets: int, crtcModeValid: bool, crtcMode: string)
    | Presenting(modeset: bool, masterMs: string, crtcLit: bool)
    | Preset(file: string, locked: bool, rung: string, cause: string, cut: bool)
    | Loading(file: string)
    | Skip(file: string, reason: string, message: string, fps: Option<string>)
    | Error(reason: string, message: string)
    | Exiting(reason: string)
    | Stats(s: Snapshot)

  datatype Snapshot = Snapshot(
    fps: string, frameMs: string, frameMsMax: string, flipMs: string, frames: int, late: int, rung: string,
    interval: int, tempC: Option<string>, armMhz: Option<int>, gpuMs: Option<string>, preset: string,
    pcmOk: int, pcmSilent: int, warmups: int, warmupMsMax: string, shaderStages: int, cachedStages: int,
    stderrDiscarded: int)

  function Given(text: string, f: Field): seq<Field> { if text != "" then [f] else [] }

  function Known(key: string, digits: Option<string>): seq<Field> {
    match digits
    case None => []
    case Some(d) => [Real(key, d)]
  }

  function NameOf(e: Event): string {
    match e
    case Simple(name) => name
    case Prepared(_, _, _, _, _, _, _, _, _) => "prepared"
    case Presenting(_, _, _) => "presenting"
    case Preset(_, _, _, _, _) => "preset"
    case Loading(_) => "loading"
    case Skip(_, _, _, _) => "skip"
    case Error(_, _) => "error"
    case Exiting(_) => "exiting"
    case Stats(_) => "stats"
  }

  function StatsRates(s: Snapshot): seq<Field> {
    [Real("fps", s.fps), Real("frame_ms", s.frameMs), Real("frame_ms_max", s.frameMsMax), Real("flip_ms", s.flipMs)]
  }

  function StatsCounts(s: Snapshot): seq<Field> {
    [Whole("frames", s.frames), Whole("late", s.late), Text("rung", s.rung, 32), Whole("interval", s.interval)]
  }

  function StatsKnown(s: Snapshot): seq<Field> {
    Known("temp_c", s.tempC)
    + (if s.armMhz == None then [] else [Whole("arm_mhz", s.armMhz.value)])
    + Known("gpu_ms", s.gpuMs)
  }

  function StatsBefore(s: Snapshot): seq<Field> {
    StatsRates(s) + (StatsCounts(s) + StatsKnown(s))
  }

  function StatsAfter(s: Snapshot): seq<Field> {
    [Whole("pcm_ok", s.pcmOk), Whole("pcm_silent", s.pcmSilent), Whole("warmups", s.warmups),
     Real("warmup_ms_max", s.warmupMsMax), Whole("shader_stages", s.shaderStages),
     Whole("cached_stages", s.cachedStages), Whole("stderr_discarded", s.stderrDiscarded)]
  }

  function FieldsOf(e: Event): seq<Field> {
    match e
    case Simple(_) => []
    case Prepared(mode, connector, modeSource, glRenderer, glVersion, gles2, presets, crtcModeValid, crtcMode) =>
      [Text("mode", mode, 32)]
      + Given(connector, Text("connector", connector, 32))
      + Given(modeSource, Text("mode_source", modeSource, 16))
      + [Text("gl_renderer", glRenderer, 128), Text("gl_version", glVersion, 128), Flag("gles2", gles2),
         Whole("presets", presets), Flag("crtc_mode_valid", crtcModeValid)]
      + (if crtcModeValid then [Text("crtc_mode", crtcMode, 32)] else [])
    case Presenting(modeset, masterMs, crtcLit) =>
      [Flag("modeset", modeset), Real("master_ms", masterMs), Flag("crtc_lit", crtcLit)]
    case Preset(file, locked, rung, cause, cut) =>
      [Text("file", file, MAX_NAME)]
      + [Flag("locked", locked), Text("rung", rung, 32), Text("cause", cause, 32), Flag("cut", cut)]
    case Loading(file) => [Text("preset", file, MAX_NAME)]
    case Skip(file, reason, message, fps) =>
      [Text("preset", file, MAX_NAME)]
      + ([Text("reason", reason, 64)] + Given(message, Text("message", message, 256)) + Known("fps", fps))
    case Error(reason, message) => [Text("reason", reason, 64)] + Given(message, Text("message", message, 512))
    case Exiting(reason) => [Text("reason", reason, 64)]
    case Stats(s) => StatsBefore(s) + [Text("preset", s.preset, MAX_NAME)] + StatsAfter(s)
  }

  function EventText(e: Event): string { Line(NameOf(e), FieldsOf(e)) }

  // A line past the budget is replaced.
  function Framed(line: string): string {
    if |line| > MAX_LINE then
      "{\"event\":\"error\",\"reason\":\"oversize_line\",\"bytes\":" + Decimal(|line|) + "}"
    else line
  }

  // ------------------------------------------------- size

  predicate Fits64(n: int) { -0x8000_0000_0000_0000 <= n < 0x8000_0000_0000_0000 }

  predicate IntsFit(fields: seq<Field>) {
    forall f :: f in fields && f.Whole? ==> Fits64(f.n)
  }

  function Bound(f: Field): nat {
    match f
    case Text(key, _, max) => |key| + 6 + 2 * max
    case Flag(key, _) => |key| + 9
    case Whole(key, _) => |key| + 24
    case Real(_, _) => FIELD_BUFFER
  }

  lemma DecimalIsShort(n: int)
    requires Fits64(n)
    ensures |Decimal(n)| <= 20
  {
    assert IsPowerOf10(10_000, 4) && IsPowerOf10(1_000_000_000, 9) && IsPowerOf10(100_000_000_000_000, 14);
    assert IsPowerOf10(10_000_000_000_000_000_000, 19);
    DigitsAreFew(if n < 0 then -n else n, 19, 10_000_000_000_000_000_000);
  }

  lemma WrittenIsBounded(f: Field)
    requires f.Whole? ==> Fits64(f.n)
    ensures |Written(f)| <= Bound(f)
  {
    match f
    case Text(_, text, max) =>
      SanitizedIsSafe(text, max);
      EscapedIsOneLine(Sanitize(text, max));
    case Flag(_, _) =>
    case Whole(_, n) => DecimalIsShort(n);
    case Real(_, _) =>
  }

  // Each of the fields takes at most `m` bytes.
  predicate AllFit(fields: seq<Field>, m: nat) {
    forall f :: f in fields ==> Bound(f) <= m && (f.Whole? ==> Fits64(f.n))
  }

  lemma {:induction false} BodyIsBounded(fields: seq<Field>, m: nat)
    requires AllFit(fields, m)
    ensures |Body(fields)| <= m * |fields|
  {
    hide Written, Bound;
    if fields != [] {
      WrittenIsBounded(fields[0]);
      BodyIsBounded(fields[1..], m);
      OneMore(m, |fields| - 1);
    }
  }

  lemma OneMore(m: nat, n: nat)
    ensures m * (n + 1) == m + m * n
  {
  }

  lemma {:induction false} BodyOfSum(a: seq<Field>, b: seq<Field>)
    ensures Body(a + b) == Body(a) + Body(b)
  {
    hide Written;
    if a == [] {
      assert a + b == b;
    } else {
      assert (a + b)[1..] == a[1..] + b;
      BodyOfSum(a[1..], b);
    }
  }

  // One field that echoes a name, the others smaller.
  lemma EchoIsBounded(before: seq<Field>, echo: Field, after: seq<Field>, m: nat)
    requires AllFit(before, m) && AllFit(after, m) && echo.Text?
    ensures |Body(before + [echo] + after)| <= m * |before| + Bound(echo) + m * |after|
  {
    hide Written, Bound;
    BodyOfSum(before + [echo], after);
    BodyOfSum(before, [echo]);
    BodyIsBounded(before, m);
    BodyIsBounded([echo], Bound(echo));
    BodyIsBounded(after, m);
  }

  lemma PreparedIsBounded(e: Event)
    requires e.Prepared? && Fits64(e.presets)
    ensures |Body(FieldsOf(e))| <= 280 * 9
  {
    hide Body, Written;
    BodyIsBounded(FieldsOf(e), 280);
  }

  lemma PresetIsBounded(e: Event)
    requires e.Preset?
    ensures |Body(FieldsOf(e))| <= 2058 + 4 * 80
  {
    hide Body, Written;
    var after := [Flag("locked", e.locked), Text("rung", e.rung, 32), Text("cause", e.cause, 32), Flag("cut", e.cut)];
    assert FieldsOf(e) == [] + [Text("file", e.file, MAX_NAME)] + after;
    EchoIsBounded([], Text("file", e.file, MAX_NAME), after, 80);
  }

  lemma SkipIsBounded(e: Event)
    requires e.Skip?
    ensures |Body(FieldsOf(e))| <= 2060 + 3 * 525
  {
    hide Body, Written;
    var after := [Text("reason", e.reason, 64)] + Given(e.message, Text("message", e.message, 256)) + Known("fps", e.fps);
    assert FieldsOf(e) == [] + [Text("preset", e.file, MAX_NAME)] + after;
    EchoIsBounded([], Text("preset", e.file, MAX_NAME), after, 525);
  }

  lemma StatsAreBounded(s: Snapshot)
    requires IntsFit(StatsBefore(s)) && IntsFit(StatsAfter(s))
    ensures |Body(FieldsOf(Stats(s)))| <= 80 * 11 + 2060 + 80 * 7
  {
    hide Body, Written, StatsBefore, StatsAfter, AllFit, IntsFit;
    StatsFieldsFit(s);
    EchoIsBounded(StatsBefore(s), Text("preset", s.preset, MAX_NAME), StatsAfter(s), 80);
  }

  lemma SumFits(a: seq<Field>, b: seq<Field>, m: nat)
    ensures AllFit(a, m) && AllFit(b, m) ==> AllFit(a + b, m)
    ensures IntsFit(a + b) ==> IntsFit(a) && IntsFit(b)
  {
    hide Bound;
    forall f | f in a || f in b
      ensures f in a + b
    {
    }
  }

  lemma RatesFit(s: Snapshot)
    ensures AllFit(StatsRates(s), 80)
  {
  }

  lemma CountsFit(s: Snapshot)
    requires IntsFit(StatsCounts(s))
    ensures AllFit(StatsCounts(s), 80)
  {
  }

  lemma KnownFit(s: Snapshot)
    requires IntsFit(StatsKnown(s))
    ensures AllFit(StatsKnown(s), 80) && |StatsKnown(s)| <= 3
  {
  }

  lemma AfterFit(s: Snapshot)
    requires IntsFit(StatsAfter(s))
    ensures AllFit(StatsAfter(s), 80)
  {
  }

  lemma StatsFieldsFit(s: Snapshot)
    requires IntsFit(StatsBefore(s)) && IntsFit(StatsAfter(s))
    ensures AllFit(StatsBefore(s), 80) && AllFit(StatsAfter(s), 80)
    ensures |StatsBefore(s)| <= 11 && |StatsAfter(s)| == 7
  {
    assert |StatsRates(s)| == 4 && |StatsCounts(s)| == 4;
    hide StatsRates, StatsCounts, StatsKnown, AllFit, IntsFit;
    SumFits(StatsCounts(s), StatsKnown(s), 80);
    SumFits(StatsRates(s), StatsCounts(s) + StatsKnown(s), 80);
    RatesFit(s);
    CountsFit(s);
    KnownFit(s);
    AfterFit(s);
  }

  lemma FieldsAreBounded(e: Event)
    requires IntsFit(FieldsOf(e))
    ensures |Body(FieldsOf(e))| <= MAX_LINE - 100
  {
    hide Body, Written, FieldsOf, IntsFit;
    match e
    case Simple(_) => ShortIsBounded(e);
    case Prepared(_, _, _, _, _, _, _, _, _) =>
      PresetsFit(e);
      PreparedIsBounded(e);
    case Presenting(_, _, _) => ShortIsBounded(e);
    case Preset(_, _, _, _, _) => PresetIsBounded(e);
    case Loading(_) => ShortIsBounded(e);
    case Skip(_, _, _, _) => SkipIsBounded(e);
    case Error(_, _) => ShortIsBounded(e);
    case Exiting(_) => ShortIsBounded(e);
    case Stats(s) =>
      StatsIntsFit(s);
      StatsAreBounded(s);
  }

  lemma PresetsFit(e: Event)
    requires e.Prepared? && IntsFit(FieldsOf(e))
    ensures Fits64(e.presets)
  {
    assert Whole("presets", e.presets) in FieldsOf(e);
  }

  // The events of three fields at most.
  lemma ShortIsBounded(e: Event)
    requires e.Simple? || e.Presenting? || e.Loading? || e.Error? || e.Exiting?
    ensures |Body(FieldsOf(e))| <= 2100
  {
    hide Body, Written;
    match e
    case Simple(_) => BodyIsBounded(FieldsOf(e), 0);
    case Presenting(_, _, _) => BodyIsBounded(FieldsOf(e), 63);
    case Loading(_) => BodyIsBounded(FieldsOf(e), 2060);
    case Error(_, _) => BodyIsBounded(FieldsOf(e), 1037);
    case Exiting(_) => BodyIsBounded(FieldsOf(e), 140);
  }

  lemma StatsIntsFit(s: Snapshot)
    requires IntsFit(FieldsOf(Stats(s)))
    ensures IntsFit(StatsBefore(s)) && IntsFit(StatsAfter(s))
  {
    hide StatsBefore, StatsAfter;
    forall f | f in StatsBefore(s) || f in StatsAfter(s)
      ensures f in FieldsOf(Stats(s))
    {
    }
  }

  // Every event is sent as it is, never in its shortened form.
  lemma EventFits(e: Event)
    requires IntsFit(FieldsOf(e)) && (e.Simple? ==> |e.name| <= 64)
    ensures |EventText(e)| <= MAX_LINE && Framed(EventText(e)) == EventText(e)
  {
    FieldsAreBounded(e);
    assert |NameOf(e)| <= 64;
    hide Body, FieldsOf, NameOf;
  }

  // ------------------------------------------------- reading an event back

  // The printer and the parser agree on the event's numbers.
  predicate NumbersOk(e: Event, finite: Finite) {
    forall f :: f in FieldsOf(e) ==>
      && (f.Whole? ==> finite(Decimal(f.n)))
      && (f.Real? ==> IsNumber(f.digits) && finite(f.digits) && |f.key| + 4 + |f.digits| <= FIELD_BUFFER)
  }

  predicate KeysArePlain(fields: seq<Field>) {
    forall f :: f in fields ==> Plain(f.key)
  }

  lemma PlainSum(a: seq<Field>, b: seq<Field>)
    requires KeysArePlain(a) && KeysArePlain(b)
    ensures KeysArePlain(a + b)
  {
  }

  lemma RatesArePlain(s: Snapshot)
    ensures KeysArePlain(StatsRates(s))
  {
    assert Plain("fps") && Plain("frame_ms") && Plain("frame_ms_max") && Plain("flip_ms");
    hide Plain;
  }

  lemma CountsArePlain(s: Snapshot)
    ensures KeysArePlain(StatsCounts(s))
  {
    assert Plain("frames") && Plain("late") && Plain("rung") && Plain("interval");
    hide Plain;
  }

  lemma KnownArePlain(s: Snapshot)
    ensures KeysArePlain(StatsKnown(s))
  {
    assert Plain("temp_c") && Plain("arm_mhz") && Plain("gpu_ms");
    hide Plain;
  }

  lemma LongKeysArePlain()
    ensures Plain("shader_stages") && Plain("cached_stages") && Plain("stderr_discarded")
  {
  }

  lemma AfterArePlain(s: Snapshot)
    ensures KeysArePlain(StatsAfter(s))
  {
    assert Plain("pcm_ok") && Plain("pcm_silent") && Plain("warmups") && Plain("warmup_ms_max");
    hide Plain;
    LongKeysArePlain();
  }

  lemma EchoIsPlain(file: string)
    ensures KeysArePlain([Text("preset", file, MAX_NAME)])
  {
    assert Plain("preset");
    hide Plain;
  }

  lemma StatsKeysArePlain(s: Snapshot)
    ensures KeysArePlain(FieldsOf(Stats(s)))
  {
    hide StatsRates, StatsCounts, StatsKnown, StatsAfter, Plain, KeysArePlain;
    RatesArePlain(s);
    CountsArePlain(s);
    KnownArePlain(s);
    AfterArePlain(s);
    EchoIsPlain(s.preset);
    PlainSum(StatsCounts(s), StatsKnown(s));
    PlainSum(StatsRates(s), StatsCounts(s) + StatsKnown(s));
    PlainSum(StatsBefore(s), [Text("preset", s.preset, MAX_NAME)]);
    PlainSum(StatsBefore(s) + [Text("preset", s.preset, MAX_NAME)], StatsAfter(s));
  }

  lemma PreparedKeysArePlain(e: Event)
    requires e.Prepared?
    ensures KeysArePlain(FieldsOf(e))
  {
    hide Plain;
    PreparedTextKeysArePlain();
    PreparedKeysLeftArePlain();
    forall f | f in FieldsOf(e)
      ensures Plain(f.key)
    {
      PreparedKeys(e, f);
    }
  }

  lemma PreparedKeys(e: Event, f: Field)
    requires e.Prepared? && f in FieldsOf(e)
    ensures f.key in {"mode", "connector", "mode_source", "gl_renderer", "gl_version", "gles2", "presets",
                      "crtc_mode_valid", "crtc_mode"}
  {
  }

  lemma PreparedKeysLeftArePlain()
    ensures Plain("gles2") && Plain("presets") && Plain("crtc_mode_valid") && Plain("crtc_mode")
  {
  }

  lemma PreparedTextKeysArePlain()
    ensures Plain("mode") && Plain("connector") && Plain("mode_source") && Plain("gl_renderer") && Plain("gl_version")
  {
  }

  lemma PresetKeysArePlain(e: Event)
    requires e.Preset? || e.Presenting?
    ensures KeysArePlain(FieldsOf(e))
  {
    assert Plain("file") && Plain("locked") && Plain("rung") && Plain("cause") && Plain("cut");
    assert Plain("modeset") && Plain("master_ms") && Plain("crtc_lit");
    hide Plain;
  }

  lemma SkipKeysArePlain(e: Event)
    requires e.Skip? || e.Error? || e.Exiting? || e.Loading?
    ensures KeysArePlain(FieldsOf(e))
  {
    assert Plain("preset") && Plain("reason") && Plain("message") && Plain("fps");
    hide Plain;
  }

  lemma EventKeysArePlain(e: Event)
    ensures KeysArePlain(FieldsOf(e))
  {
    hide Plain;
    match e
    case Simple(_) =>
    case Prepared(_, _, _, _, _, _, _, _, _) => PreparedKeysArePlain(e);
    case Presenting(_, _, _) => PresetKeysArePlain(e);
    case Preset(_, _, _, _, _) => PresetKeysArePlain(e);
    case Loading(_) => SkipKeysArePlain(e);
    case Skip(_, _, _, _) => SkipKeysArePlain(e);
    case Error(_, _) => SkipKeysArePlain(e);
    case Exiting(_) => SkipKeysArePlain(e);
    case Stats(s) => StatsKeysArePlain(s);
  }

  lemma NameIsPlain(e: Event)
    requires e.Simple? ==> Plain(e.name)
    ensures Plain(NameOf(e))
  {
    match e
    case Simple(_) =>
    case Prepared(_, _, _, _, _, _, _, _, _) => assert Plain("prepared");
    case Presenting(_, _, _) => assert Plain("presenting");
    case Preset(_, _, _, _, _) => assert Plain("preset");
    case Loading(_) => assert Plain("loading");
    case Skip(_, _, _, _) => assert Plain("skip");
    case Error(_, _) => assert Plain("error");
    case Exiting(_) => assert Plain("exiting");
    case Stats(_) => assert Plain("stats");
  }

  function MembersOf(e: Event): map<string, Json> {
    Merged(map["event" := String(NameOf(e))], FieldsOf(e))
  }

  // The owner reads back every event as its name and fields.
  lemma EventIsReadBack(e: Event, finite: Finite)
    requires NumbersOk(e, finite) && (e.Simple? ==> Plain(e.name))
    ensures Parse(EventText(e), finite) == Done(Object(MembersOf(e)), |EventText(e)|)
  {
    EventKeysArePlain(e);
    NameIsPlain(e);
    hide FieldsOf, NameOf, Plain, Line;
    LineIsRead(NameOf(e), FieldsOf(e), finite);
  }

  lemma {:induction false} MergedKeeps(acc: map<string, Json>, fields: seq<Field>, key: string)
    requires key in acc && forall f :: f in fields ==> f.key != key
    ensures key in Merged(acc, fields) && Merged(acc, fields)[key] == acc[key]
    decreases |fields|
  {
    if fields != [] {
      hide ValueOf;
      MergedKeeps(acc[fields[0].key := ValueOf(fields[0])], fields[1..], key);
    }
  }

  // The events that carry a preset's name, the name, and its key.
  predicate Echoes(e: Event) { e.Preset? || e.Loading? || e.Skip? || e.Stats? }

  function EchoKey(e: Event): string
    requires Echoes(e)
  {
    if e.Preset? then "file" else "preset"
  }

  function Echoed(e: Event): string
    requires Echoes(e)
  {
    if e.Stats? then e.s.preset else e.file
  }

  // A valid preset name comes back exactly.
  lemma NameIsEchoed(e: Event, finite: Finite)
    requires Echoes(e) && ValidName(Echoed(e)) && NumbersOk(e, finite)
    ensures var r := Parse(EventText(e), finite);
      && r.Done? && r.value.Object? && EchoKey(e) in r.value.members
      && r.value.members[EchoKey(e)] == String(Echoed(e))
  {
    EventIsReadBack(e, finite);
    ValidNameIsKept(Echoed(e));
    EchoIsMember(e);
    hide Parse, EventText, ValidName;
  }

  lemma EchoIsMember(e: Event)
    requires Echoes(e) && Sanitize(Echoed(e), MAX_NAME) == Echoed(e)
    ensures EchoKey(e) in MembersOf(e) && MembersOf(e)[EchoKey(e)] == String(Echoed(e))
  {
    hide Sanitize, Merged, StatsAfter, StatsBefore;
    var before := if e.Stats? then StatsBefore(e.s) else [];
    var echo := Text(EchoKey(e), Echoed(e), MAX_NAME);
    var after := if e.Stats? then StatsAfter(e.s) else FieldsOf(e)[1..];
    assert FieldsOf(e) == before + [echo] + after;
    OthersDiffer(e);
    MergedEcho(map["event" := String(NameOf(e))], before, echo, after);
  }

  lemma {:induction false} MergedSum(acc: map<string, Json>, a: seq<Field>, b: seq<Field>)
    ensures Merged(acc, a + b) == Merged(Merged(acc, a), b)
    decreases |a|
  {
    hide ValueOf;
    if a == [] {
      assert a + b == b;
    } else {
      assert (a + b)[1..] == a[1..] + b;
      MergedSum(acc[a[0].key := ValueOf(a[0])], a[1..], b);
    }
  }

  // A field whose key does not come again keeps its value.
  lemma MergedEcho(acc: map<string, Json>, before: seq<Field>, echo: Field, after: seq<Field>)
    requires forall f :: f in after ==> f.key != echo.key
    ensures var all := Merged(acc, before + [echo] + after); echo.key in all && all[echo.key] == ValueOf(echo)
  {
    hide ValueOf;
    MergedSum(acc, before + [echo], after);
    MergedSum(acc, before, [echo]);
    var merged := Merged(acc, before);
    assert Merged(merged, [echo]) == Merged(merged[echo.key := ValueOf(echo)], []);
    MergedKeeps(merged[echo.key := ValueOf(echo)], after, echo.key);
  }

  lemma OthersDiffer(e: Event)
    requires Echoes(e)
    ensures e.Stats? ==> forall f :: f in StatsAfter(e.s) ==> f.key != EchoKey(e)
    ensures !e.Stats? ==> forall f :: f in FieldsOf(e)[1..] ==> f.key != EchoKey(e)
  {
    if e.Stats? {
      hide FieldsOf;
      StatsOthersDiffer(e.s);
    } else {
      FileOthersDiffer(e);
    }
  }

  lemma StatsOthersDiffer(s: Snapshot)
    ensures forall f :: f in StatsAfter(s) ==> f.key != "preset"
  {
  }

  lemma FileOthersDiffer(e: Event)
    requires e.Preset? || e.Loading? || e.Skip?
    ensures forall f :: f in FieldsOf(e)[1..] ==> f.key != EchoKey(e)
  {
  }
}
