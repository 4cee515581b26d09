/**
 * The script itself: its module-level state (`config`, `globals`, `device`,
 * `devices`) as an object whose methods are the script's functions, and the
 * top-level sequence that runs them.
 */
module Extraction {
  import opened Wrappers
  import opened JsString
  import opened JsObject
  import opened Devices
  import ConfigFile
  import TemplateVariables
  import PublishCommand
  import TemplateParser
  import BrokerInfo
  import DeviceFilter

  class Extractor {
    var config: ConfigFile.Config
    var globals: Object
    var device: Option<Device>
    var devices: seq<Device>

    /** The parser's part of the state. */
    function State(): Parse
      reads this
    {
      Parse(device, devices)
    }

    constructor()
      ensures config == map[] && globals == Empty && device == None && devices == []
    {
      config := map[];
      globals := Empty;
      device := None;
      devices := [];
    }

    /** `readConfig`: every line of the configuration file, first to last. */
    method ReadConfig(lines: seq<String>)
      modifies this
      ensures config == ConfigFile.Load(old(config), lines)
      ensures globals == old(globals) && State() == old(State())
    {
      var i := 0;
      while i < |lines|
        invariant 0 <= i <= |lines|
        invariant config == ConfigFile.Load(old(config), lines[..i])
        invariant globals == old(globals) && State() == old(State())
      {
        ConfigFile.LoadNext(old(config), lines, i);
        var setting := ConfigFile.ParseConfigLine(lines[i]);
        if setting.Some? {
          config := config[setting.value.key := setting.value.value];
        }
        i := i + 1;
      }
      assert lines[..i] == lines;
    }

    /**
     * `readInfo`: the subscription topic (`None` when `MQTT_Topic` is not
     * configured, where the source throws), then the merge of the message
     * that arrived on `topic`.
     */
    method ReadInfo(topic: String, msg: Object) returns (search: Option<String>)
      modifies this
      ensures search == BrokerInfo.SubscriptionTopic(config)
      ensures search.Some? ==> globals == BrokerInfo.MergeMessage(msg, old(globals), topic)
      ensures search.None? ==> globals == old(globals)
      ensures config == old(config) && State() == old(State())
    {
      if "MQTT_Topic" !in config {
        return None;
      }
      search := Some(BrokerInfo.RewriteTopic(config["MQTT_Topic"]));
      globals := BrokerInfo.MergeMessage(msg, globals, topic);
    }

    /** The plant name and timestamp format copied into `globals`. */
    method AddPlantGlobals()
      modifies this
      ensures globals == BrokerInfo.PlantGlobals(old(globals), config)
      ensures config == old(config) && State() == old(State())
    {
      globals := Set(globals, "PLANTNAME", ConfigFile.Lookup(config, "Plantname"));
      globals := Set(globals, "ts", ConfigFile.Lookup(config, "DateTimeFormat"));
    }

    /** `matchVariables(line)`. */
    method MatchVariables(line: String)
      modifies this
      ensures State() == TemplateVariables.MatchVariables(old(State()), config, line)
      ensures config == old(config) && globals == old(globals)
    {
      var m := TemplateVariables.ParseAssignment(line);
      if m.None? {
        return;
      }
      var key := m.value.key;
      var value := m.value.value;
      if TemplateVariables.NeedsShell(value) {
        return;
      }
      if key != "value" && device.None? {
        return;
      }
      if key == "value" && value == [] {
        return;
      }
      if key == "value" && device.Some? {
        devices := devices + [device.value];
        device := Some(Device([], Clone(device.value.variables), None, None));
      }
      if device.None? {
        device := Some(Device([], Empty, None, None));
      }
      if key == "ts" && TemplateVariables.BashioSearch(line, 0, false).Some? {
        var configKey := TemplateVariables.OptionName(line);
        if configKey in config && config[configKey] != [] {
          value := config[configKey];
        }
      }
      if key == "value" {
        device := Some(device.value.(name := value));
      }
      device := Some(device.value.(variables := Set(device.value.variables, key, value)));
    }

    /**
     * `matchConfig(line)`; `ok` is false where the source throws because no
     * device is in progress, and then nothing has changed.
     */
    method MatchConfig(line: String) returns (ok: bool)
      modifies this
      ensures ok <==> PublishCommand.MatchConfig(old(State()), globals, line).Some?
      ensures ok ==> State() == PublishCommand.MatchConfig(old(State()), globals, line).value
      ensures !ok ==> State() == old(State())
      ensures config == old(config) && globals == old(globals)
    {
      var m := PublishCommand.ParsePublish(line);
      if m.None? {
        return true;
      }
      var cmd := m.value;
      var payload := PublishCommand.StripQuotes(cmd.payload);
      payload := ReplaceAll(payload, PublishCommand.AddonName, "SBFspot");
      if device.None? {
        return false;
      }
      var d := device.value;
      var vars := Spread(globals, d.variables);
      var out := SubstituteAll(PublishCommand.Publish(cmd.topic, payload), vars);
      device := Some(d.(topic := Some(out.topic), config := Some(Discovery(Trim(out.payload), Get(globals, "MQTT_Topic")))));
      assert device.value == PublishCommand.Configure(d, globals, cmd);
      return true;
    }

    /**
     * The loop over the sensor template; `ok` is false where a line throws,
     * and the state is then the one that line left.
     */
    method ParseTemplate(lines: seq<String>) returns (ok: bool)
      modifies this
      ensures ok <==> TemplateParser.ParseLines(old(State()), config, globals, lines).Some?
      ensures ok ==> State() == TemplateParser.ParseLines(old(State()), config, globals, lines).value
      ensures config == old(config) && globals == old(globals)
    {
      var i := 0;
      while i < |lines|
        invariant 0 <= i <= |lines|
        invariant TemplateParser.ParseLines(old(State()), config, globals, lines[..i]) == Some(State())
        invariant config == old(config) && globals == old(globals)
      {
        TemplateParser.ParseLinesNext(old(State()), config, globals, lines, i);
        MatchVariables(lines[i]);
        ok := MatchConfig(lines[i]);
        if !ok {
          TemplateParser.ParseLinesStaysFailed(old(State()), config, globals, lines, i + 1);
          return;
        }
        i := i + 1;
      }
      assert lines[..i] == lines;
      ok := true;
    }

    /** `devices = devices.filter(…)`; `ok` is false where `MQTT_Data` is not configured and the source throws. */
    method FilterDevices() returns (ok: bool)
      modifies this
      ensures ok <==> "MQTT_Data" in config
      ensures ok ==> devices == DeviceFilter.EnabledDevices(config, old(devices)).value
      ensures !ok ==> devices == old(devices)
      ensures config == old(config) && globals == old(globals) && device == old(device)
    {
      if "MQTT_Data" !in config {
        return false;
      }
      var enabled := Split(config["MQTT_Data"], ",");
      devices := DeviceFilter.Filter(devices, enabled);
      return true;
    }
  }

  /** The `for (const key in vars)` loop of `matchConfig`. */
  method SubstituteAll(cmd: PublishCommand.Publish, vars: Object) returns (out: PublishCommand.Publish)
    ensures out == PublishCommand.SubstituteKeys(cmd, vars, Enumerate(vars))
  {
    var keys := Enumerate(vars);
    var topic := cmd.topic;
    var payload := cmd.payload;
    var i := 0;
    while i < |keys|
      invariant 0 <= i <= |keys|
      invariant PublishCommand.Publish(topic, payload) == PublishCommand.SubstituteKeys(cmd, vars, keys[..i])
    {
      var key := keys[i];
      var value := ValueOf(vars, key);
      payload := ReplaceAll(payload, "$" + key, value);
      topic := ReplaceAll(topic, "\"$" + key + "\"", value);
      PublishCommand.SubstituteNext(cmd, vars, keys, i);
      i := i + 1;
    }
    assert keys[..i] == keys;
    out := PublishCommand.Publish(topic, payload);
  }

  /**
   * What a run publishes, in order: `None` where the run throws. The topic
   * and payload of the one message received on the subscription are inputs.
   */
  function Published(configLines: seq<String>, topic: String, msg: Object, templateLines: seq<String>): Option<seq<Device>> {
    var cfg := ConfigFile.Load(map[], configLines);
    if BrokerInfo.SubscriptionTopic(cfg).None? then None
    else
      var globals := BrokerInfo.PlantGlobals(BrokerInfo.MergeMessage(msg, Empty, topic), cfg);
      match TemplateParser.ParseLines(Start, cfg, globals, templateLines)
      case None => None
      case Some(st) => DeviceFilter.EnabledDevices(cfg, st.devices)
  }

  /**
   * The script's top level: read the configuration, subscribe and merge the
   * message, add the plant globals, parse the template and filter; the
   * devices returned are those the script publishes, in order.
   */
  method Run(configLines: seq<String>, topic: String, msg: Object, templateLines: seq<String>)
    returns (search: Option<String>, published: Option<seq<Device>>)
    ensures search == BrokerInfo.SubscriptionTopic(ConfigFile.Load(map[], configLines))
    ensures published == Published(configLines, topic, msg, templateLines)
  {
    var x := new Extractor();
    x.ReadConfig(configLines);
    search := x.ReadInfo(topic, msg);
    if search.None? {
      return search, None;
    }
    x.AddPlantGlobals();
    var ok := x.ParseTemplate(templateLines);
    if !ok {
      return search, None;
    }
    ok := x.FilterDevices();
    if !ok {
      return search, None;
    }
    published := Some(x.devices);
  }

  /**
   * Every device a run publishes is one the template produced, in the
   * template's order, its name is enabled by `MQTT_Data`, and its config,
   * when it has one, names the topic the message arrived on as its state
   * topic.
   */
  lemma PublishedDevices(configLines: seq<String>, topic: String, msg: Object, templateLines: seq<String>)
    requires JsObject.Valid(msg)
    requires Published(configLines, topic, msg, templateLines).Some?
    ensures var cfg := ConfigFile.Load(map[], configLines);
      var globals := BrokerInfo.PlantGlobals(BrokerInfo.MergeMessage(msg, Empty, topic), cfg);
      var out := Published(configLines, topic, msg, templateLines).value;
      && TemplateParser.ParseLines(Start, cfg, globals, templateLines).Some?
      && DeviceFilter.Subsequence(out, TemplateParser.ParseLines(Start, cfg, globals, templateLines).value.devices)
      && "MQTT_Data" in cfg
      && (forall d | d in out :: DeviceFilter.Enabled(Split(cfg["MQTT_Data"], ","), d.name))
      && (forall d | d in out && d.config.Some? :: d.config.value.stateTopic == Some(topic))
  {
    var cfg := ConfigFile.Load(map[], configLines);
    var merged := BrokerInfo.MergeMessage(msg, Empty, topic);
    var globals := BrokerInfo.PlantGlobals(merged, cfg);
    BrokerInfo.MergeMessageShape(msg, Empty, topic);
    BrokerInfo.PlantGlobalsShape(merged, cfg);
    var st := TemplateParser.ParseLines(Start, cfg, globals, templateLines).value;
    TemplateParser.ParseLinesStateTopics(Start, cfg, globals, templateLines);
    var entries := Split(cfg["MQTT_Data"], ",");
    DeviceFilter.FilterSubsequence(st.devices, entries);
    DeviceFilter.FilterMembers(st.devices, entries);
    forall d | d in DeviceFilter.Filter(st.devices, entries) && d.config.Some?
      ensures d.config.value.stateTopic == Some(topic)
    {
      var i :| 0 <= i < |st.devices| && st.devices[i] == d;
    }
  }
}
