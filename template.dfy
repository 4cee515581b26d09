/**
 * The driver loop over the sensor template: every line goes through
 * `matchVariables` and then `matchConfig`, and a line that throws ends the
 * run.
 */
module TemplateParser {
  import opened Wrappers
  import opened JsString
  import opened JsObject
  import opened Devices
  import ConfigFile
  import TemplateVariables
  import PublishCommand

  /** One iteration of the loop; `None` when the line throws. */
  function Step(st: Parse, cfg: ConfigFile.Config, globals: Object, line: String): Option<Parse> {
    PublishCommand.MatchConfig(TemplateVariables.MatchVariables(st, cfg, line), globals, line)
  }

  /** The state after the given lines, read first to last; `None` once a line throws. */
  function ParseLines(st: Parse, cfg: ConfigFile.Config, globals: Object, lines: seq<String>): Option<Parse>
    decreases |lines|
  {
    if lines == [] then Some(st)
    else match ParseLines(st, cfg, globals, lines[..|lines| - 1])
      case None => None
      case Some(s) => Step(s, cfg, globals, lines[|lines| - 1])
  }

  /** An accepted `value` line: it opens a new device whatever the state. */
  predicate OpensDevice(line: String) {
    var a := TemplateVariables.ParseAssignment(line);
    a.Some? && a.value.key == "value" && a.value.value != [] && !TemplateVariables.NeedsShell(a.value.value)
  }

  function CountOpening(lines: seq<String>): nat
    decreases |lines|
  {
    if lines == [] then 0
    else CountOpening(lines[..|lines| - 1]) + (if OpensDevice(lines[|lines| - 1]) then 1 else 0)
  }

  /** The values of the opening lines, first to last: the names of the devices they open. */
  function OpeningValues(lines: seq<String>): (r: seq<String>)
    ensures |r| == CountOpening(lines)
    decreases |lines|
  {
    if lines == [] then []
    else
      var last := lines[|lines| - 1];
      OpeningValues(lines[..|lines| - 1]) + (if OpensDevice(last) then [TemplateVariables.ParseAssignment(last).value.value] else [])
  }

  /**
   * A line that opens a device leaves in progress a device named after its
   * value; any other line leaves the device in progress under its name.
   */
  lemma StepName(st: Parse, cfg: ConfigFile.Config, globals: Object, line: String)
    requires st.Valid()
    requires Step(st, cfg, globals, line).Some?
    ensures var r := Step(st, cfg, globals, line).value;
      && (OpensDevice(line) ==> r.device.Some? && r.device.value.name == TemplateVariables.ParseAssignment(line).value.value)
      && (!OpensDevice(line) && st.device.Some? ==> r.device.Some? && r.device.value.name == st.device.value.name)
  {
    if !TemplateVariables.Ignores(st, line) {
      if TemplateVariables.ParseAssignment(line).value.key == "value" {
        TemplateVariables.MatchVariablesValueLine(st, cfg, line);
      } else {
        TemplateVariables.MatchVariablesOtherLine(st, cfg, line);
      }
    }
  }

  /**
   * One line appends the device in progress to `devices` exactly when it
   * opens a new device, and a device is in progress afterwards exactly when
   * one was before or the line opens one.
   */
  lemma StepDevices(st: Parse, cfg: ConfigFile.Config, globals: Object, line: String)
    requires Step(st, cfg, globals, line).Some?
    ensures var r := Step(st, cfg, globals, line).value;
      && r.devices == st.devices + (if OpensDevice(line) && st.device.Some? then [st.device.value] else [])
      && (r.device.Some? <==> st.device.Some? || OpensDevice(line))
  {
  }

  /** Once a line has thrown, later lines change nothing. */
  lemma {:induction false} ParseLinesStaysFailed(st: Parse, cfg: ConfigFile.Config, globals: Object, lines: seq<String>, j: nat)
    requires j <= |lines| && ParseLines(st, cfg, globals, lines[..j]) == None
    ensures ParseLines(st, cfg, globals, lines) == None
    decreases |lines|
  {
    if j < |lines| {
      var init := lines[..|lines| - 1];
      assert init[..j] == lines[..j];
      ParseLinesStaysFailed(st, cfg, globals, init, j);
    } else {
      assert lines[..j] == lines;
    }
  }

  /**
   * `devices` only grows, by one device for each opening line except the
   * first when no device was in progress at the start.
   */
  lemma {:induction false} ParseLinesDevices(st: Parse, cfg: ConfigFile.Config, globals: Object, lines: seq<String>)
    requires ParseLines(st, cfg, globals, lines).Some?
    ensures var r := ParseLines(st, cfg, globals, lines).value;
      var n := CountOpening(lines);
      && |st.devices| <= |r.devices| && r.devices[..|st.devices|] == st.devices
      && |r.devices| == |st.devices| + (if st.device.Some? || n == 0 then n else n - 1)
      && (r.device.Some? <==> st.device.Some? || 0 < n)
    decreases |lines|
  {
    if lines != [] {
      var init := lines[..|lines| - 1];
      ParseLinesDevices(st, cfg, globals, init);
      var s := ParseLines(st, cfg, globals, init).value;
      StepDevices(s, cfg, globals, lines[|lines| - 1]);
    }
  }

  /**
   * From the initial state the number of devices is one less than the
   * number of opening lines: the last device is still in progress when the
   * template ends and is never appended.
   */
  lemma LastDeviceDropped(cfg: ConfigFile.Config, globals: Object, lines: seq<String>)
    requires ParseLines(Start, cfg, globals, lines).Some?
    ensures var r := ParseLines(Start, cfg, globals, lines).value;
      var n := CountOpening(lines);
      && |r.devices| == (if n == 0 then 0 else n - 1)
      && (0 < n ==> r.device.Some? && r.device.value.name == OpeningValues(lines)[n - 1])
      && forall i | 0 <= i < |r.devices| :: r.devices[i].name == OpeningValues(lines)[i]
  {
    ParseLinesDevices(Start, cfg, globals, lines);
    ParseLinesNames(cfg, globals, lines);
  }

  /** From the initial state, the finished devices and the one in progress carry the opening values, in order. */
  lemma {:induction false} ParseLinesNames(cfg: ConfigFile.Config, globals: Object, lines: seq<String>)
    requires ParseLines(Start, cfg, globals, lines).Some?
    ensures var r := ParseLines(Start, cfg, globals, lines).value;
      var names := OpeningValues(lines);
      && r.Valid()
      && |r.devices| == (if names == [] then 0 else |names| - 1)
      && (r.device.Some? <==> names != [])
      && (names != [] ==> r.device.value.name == names[|names| - 1])
      && forall i | 0 <= i < |r.devices| :: r.devices[i].name == names[i]
    decreases |lines|
  {
    if lines != [] {
      var init := lines[..|lines| - 1];
      var line := lines[|lines| - 1];
      ParseLinesNames(cfg, globals, init);
      var s := ParseLines(Start, cfg, globals, init).value;
      assert ParseLines(Start, cfg, globals, lines) == Step(s, cfg, globals, line);
      StepDevices(s, cfg, globals, line);
      StepName(s, cfg, globals, line);
      StepValid(s, cfg, globals, line);
      var r := Step(s, cfg, globals, line).value;
      var before := OpeningValues(init);
      if OpensDevice(line) {
        var v := TemplateVariables.ParseAssignment(line).value.value;
        assert OpeningValues(lines) == before + [v];
        if s.device.Some? {
          NamesAppend(s.devices, s.device.value, before, v);
        }
      } else {
        assert OpeningValues(lines) == before;
      }
    }
  }

  /** Finishing the device named by the last value and opening one for `v` keeps names and values in step. */
  lemma NamesAppend(devices: seq<Device>, d: Device, before: seq<String>, v: String)
    requires before != [] && |devices| == |before| - 1 && d.name == before[|before| - 1]
    requires forall i | 0 <= i < |devices| :: devices[i].name == before[i]
    ensures forall i | 0 <= i < |devices + [d]| :: (devices + [d])[i].name == (before + [v])[i]
  {
  }

  /** A template that opens a single device produces no device at all. */
  lemma SingleDeviceDropped(cfg: ConfigFile.Config, globals: Object, lines: seq<String>)
    requires CountOpening(lines) == 1
    requires ParseLines(Start, cfg, globals, lines).Some?
    ensures ParseLines(Start, cfg, globals, lines).value.devices == []
  {
    LastDeviceDropped(cfg, globals, lines);
  }

  /** Every device that has a config carries `globals.MQTT_Topic` as its state topic. */
  ghost predicate StateTopics(st: Parse, globals: Object) {
    && (forall i | 0 <= i < |st.devices| :: st.devices[i].config.Some? ==> st.devices[i].config.value.stateTopic == Get(globals, "MQTT_Topic"))
    && (st.device.Some? && st.device.value.config.Some? ==> st.device.value.config.value.stateTopic == Get(globals, "MQTT_Topic"))
  }

  /** The state topic of every configured device is `globals.MQTT_Topic`, whatever its payload. */
  lemma {:induction false} ParseLinesStateTopics(st: Parse, cfg: ConfigFile.Config, globals: Object, lines: seq<String>)
    requires StateTopics(st, globals)
    requires ParseLines(st, cfg, globals, lines).Some?
    ensures StateTopics(ParseLines(st, cfg, globals, lines).value, globals)
    decreases |lines|
  {
    if lines != [] {
      var init := lines[..|lines| - 1];
      ParseLinesStateTopics(st, cfg, globals, init);
      var s := ParseLines(st, cfg, globals, init).value;
      StepStateTopics(s, cfg, globals, lines[|lines| - 1]);
    }
  }

  lemma StepStateTopics(st: Parse, cfg: ConfigFile.Config, globals: Object, line: String)
    requires StateTopics(st, globals)
    requires Step(st, cfg, globals, line).Some?
    ensures StateTopics(Step(st, cfg, globals, line).value, globals)
  {
    var m := TemplateVariables.MatchVariables(st, cfg, line);
    MatchVariablesStateTopics(st, cfg, globals, line);
    MatchConfigStateTopics(m, globals, line);
  }

  lemma MatchVariablesStateTopics(st: Parse, cfg: ConfigFile.Config, globals: Object, line: String)
    requires StateTopics(st, globals)
    ensures StateTopics(TemplateVariables.MatchVariables(st, cfg, line), globals)
  {
    var r := TemplateVariables.MatchVariables(st, cfg, line);
    if !TemplateVariables.Ignores(st, line) && TemplateVariables.ParseAssignment(line).value.key == "value" && st.device.Some? {
      assert r.devices == st.devices + [st.device.value];
    }
  }

  lemma MatchConfigStateTopics(st: Parse, globals: Object, line: String)
    requires StateTopics(st, globals)
    requires PublishCommand.MatchConfig(st, globals, line).Some?
    ensures StateTopics(PublishCommand.MatchConfig(st, globals, line).value, globals)
  {
  }

  /** The device in progress keeps well-formed variables through any lines that do not throw. */
  lemma {:induction false} ParseLinesValid(st: Parse, cfg: ConfigFile.Config, globals: Object, lines: seq<String>)
    requires st.Valid()
    requires ParseLines(st, cfg, globals, lines).Some?
    ensures ParseLines(st, cfg, globals, lines).value.Valid()
    decreases |lines|
  {
    if lines != [] {
      var init := lines[..|lines| - 1];
      ParseLinesValid(st, cfg, globals, init);
      var s := ParseLines(st, cfg, globals, init).value;
      StepValid(s, cfg, globals, lines[|lines| - 1]);
    }
  }

  lemma StepValid(st: Parse, cfg: ConfigFile.Config, globals: Object, line: String)
    requires st.Valid()
    requires Step(st, cfg, globals, line).Some?
    ensures Step(st, cfg, globals, line).value.Valid()
  {
    MatchVariablesValid(st, cfg, line);
    MatchConfigValid(TemplateVariables.MatchVariables(st, cfg, line), globals, line);
  }

  lemma MatchVariablesValid(st: Parse, cfg: ConfigFile.Config, line: String)
    requires st.Valid()
    ensures TemplateVariables.MatchVariables(st, cfg, line).Valid()
  {
    if !TemplateVariables.Ignores(st, line) {
      if TemplateVariables.ParseAssignment(line).value.key == "value" {
        TemplateVariables.MatchVariablesValueLine(st, cfg, line);
      } else {
        TemplateVariables.MatchVariablesOtherLine(st, cfg, line);
      }
    }
  }

  lemma MatchConfigValid(st: Parse, globals: Object, line: String)
    requires st.Valid()
    requires PublishCommand.MatchConfig(st, globals, line).Some?
    ensures PublishCommand.MatchConfig(st, globals, line).value.Valid()
  {
  }

  /** Without a device in progress, a line that opens none and matches the publish command throws. */
  lemma StepWithoutDevice(st: Parse, cfg: ConfigFile.Config, globals: Object, line: String)
    requires st.device.None? && !OpensDevice(line)
    requires PublishCommand.ParsePublish(line).Some?
    ensures Step(st, cfg, globals, line) == None
  {
    assert TemplateVariables.MatchVariables(st, cfg, line) == st;
  }

  /** Reading the line at `i` steps the state the earlier lines left, unless it already failed. */
  lemma ParseLinesNext(st: Parse, cfg: ConfigFile.Config, globals: Object, lines: seq<String>, i: nat)
    requires i < |lines|
    ensures ParseLines(st, cfg, globals, lines[..i + 1]) ==
      if ParseLines(st, cfg, globals, lines[..i]).None? then None
      else Step(ParseLines(st, cfg, globals, lines[..i]).value, cfg, globals, lines[i])
  {
    assert lines[..i + 1][..i] == lines[..i];
  }

  /** A publish line before any device has been opened throws, and the run fails. */
  lemma PublishBeforeDeviceFails(cfg: ConfigFile.Config, globals: Object, lines: seq<String>, i: nat)
    requires i < |lines|
    requires CountOpening(lines[..i + 1]) == 0
    requires PublishCommand.ParsePublish(lines[i]).Some?
    ensures ParseLines(Start, cfg, globals, lines) == None
  {
    assert lines[..i + 1][..i] == lines[..i];
    assert CountOpening(lines[..i]) == 0 && !OpensDevice(lines[i]);
    ParseLinesNext(Start, cfg, globals, lines, i);
    var before := ParseLines(Start, cfg, globals, lines[..i]);
    if before.Some? {
      ParseLinesDevices(Start, cfg, globals, lines[..i]);
      StepWithoutDevice(before.value, cfg, globals, lines[i]);
    }
    ParseLinesStaysFailed(Start, cfg, globals, lines, i + 1);
  }
}
