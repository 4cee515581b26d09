/**
 * The final filter: `MQTT_Data` is a comma-separated list of device names,
 * and a device is published when its name is one of them followed by any
 * number of decimal digits.
 */
module DeviceFilter {
  import opened Wrappers
  import opened JsString
  import opened Devices
  import ConfigFile

  predicate AllDigits(s: String) {
    forall k | 0 <= k < |s| :: IsDigit(s[k])
  }

  /** `new RegExp('^' + entry + '\\d*$').test(name)`, the entry read as literal text. */
  predicate MatchesEntry(entry: String, name: String) {
    |entry| <= |name| && name[..|entry|] == entry && AllDigits(name[|entry|..])
  }

  /** `matchers.some(m => m.test(name))`. */
  predicate Enabled(entries: seq<String>, name: String) {
    exists i | 0 <= i < |entries| :: MatchesEntry(entries[i], name)
  }

  /** `devices.filter(…)`: the enabled devices, in their order. */
  function Filter(devs: seq<Device>, entries: seq<String>): seq<Device>
    decreases |devs|
  {
    if devs == [] then []
    else (if Enabled(entries, devs[0].name) then [devs[0]] else []) + Filter(devs[1..], entries)
  }

  /** The devices to publish; `None` where splitting a missing `MQTT_Data` fails. */
  function EnabledDevices(cfg: ConfigFile.Config, devs: seq<Device>): (r: Option<seq<Device>>)
    ensures r.Some? <==> "MQTT_Data" in cfg
  {
    if "MQTT_Data" in cfg then Some(Filter(devs, Split(cfg["MQTT_Data"], ","))) else None
  }

  /** `xs` is `ys` with some elements left out. */
  ghost predicate Subsequence<T>(xs: seq<T>, ys: seq<T>)
    decreases |ys|
  {
    if xs == [] then true
    else if ys == [] then false
    else (xs[0] == ys[0] && Subsequence(xs[1..], ys[1..])) || Subsequence(xs, ys[1..])
  }

  /** A device is kept exactly when it is one of the devices and its name is enabled. */
  lemma {:induction false} FilterMembers(devs: seq<Device>, entries: seq<String>)
    ensures forall d :: d in Filter(devs, entries) <==> d in devs && Enabled(entries, d.name)
    decreases |devs|
  {
    if devs != [] {
      FilterMembers(devs[1..], entries);
      assert devs == [devs[0]] + devs[1..];
    }
  }

  /** The kept devices keep their order: the result is a subsequence of the devices. */
  lemma {:induction false} FilterSubsequence(devs: seq<Device>, entries: seq<String>)
    ensures Subsequence(Filter(devs, entries), devs)
    decreases |devs|
  {
    if devs != [] {
      FilterSubsequence(devs[1..], entries);
      var rest := Filter(devs[1..], entries);
      if Enabled(entries, devs[0].name) {
        assert Filter(devs, entries) == [devs[0]] + rest;
        assert ([devs[0]] + rest)[1..] == rest;
      } else {
        assert Filter(devs, entries) == rest;
        if rest != [] {
          assert Subsequence(rest, devs[1..]);
        }
      }
    }
  }

  /** Filtering distributes over concatenation, so each device is judged on its own. */
  lemma {:induction false} FilterAppend(a: seq<Device>, b: seq<Device>, entries: seq<String>)
    ensures Filter(a + b, entries) == Filter(a, entries) + Filter(b, entries)
    decreases |a|
  {
    if a != [] {
      FilterAppend(a[1..], b, entries);
      assert (a + b)[1..] == a[1..] + b;
    } else {
      assert a + b == b;
    }
  }

  /** Filtering twice keeps the same devices as filtering once. */
  lemma {:induction false} FilterIdempotent(devs: seq<Device>, entries: seq<String>)
    ensures Filter(Filter(devs, entries), entries) == Filter(devs, entries)
    decreases |devs|
  {
    if devs != [] {
      FilterIdempotent(devs[1..], entries);
      var head := if Enabled(entries, devs[0].name) then [devs[0]] else [];
      FilterAppend(head, Filter(devs[1..], entries), entries);
      if head != [] {
        assert head[1..] == [];
      }
    }
  }

  /** Two names without a comma, joined by one, split back into the two names. */
  lemma SplitTwo(a: String, b: String)
    requires ',' !in a && ',' !in b
    ensures Split(a + "," + b, ",") == [a, b]
  {
    var s := a + "," + b;
    assert OccursAt(s, ",", |a|);
    forall k: nat | k < |a| ensures !OccursAt(s, ",", k) {
      assert s[k] == a[k];
      assert s[k..k + 1][0] == s[k];
    }
    assert IndexOf(s, ",", 0) == Some(|a|);
    forall k: nat | |a| + 1 <= k ensures !OccursAt(s, ",", k) {
      if k < |s| {
        assert s[k] == b[k - |a| - 1];
        assert s[k..k + 1][0] == s[k];
      }
    }
    assert IndexOf(s, ",", |a| + 1) == None;
    assert s[0..|a|] == a && s[|a| + 1..] == b;
    assert SplitFrom(s, ",", |a| + 1) == [b];
  }

  /** `"Inverter,Battery".split(",")` gives the two names. */
  lemma SplitDataExample()
    ensures Split("Inverter,Battery", ",") == ["Inverter", "Battery"]
  {
    SplitTwo("Inverter", "Battery");
    assert "Inverter" + "," + "Battery" == "Inverter,Battery";
  }

  /**
   * With the entries `Inverter` and `Battery`, `Inverter` and `Battery12` are
   * enabled, while a longer name that goes on with other characters, or a
   * shorter one, is not.
   */
  lemma EnabledExamples()
    ensures Enabled(["Inverter", "Battery"], "Inverter")
    ensures Enabled(["Inverter", "Battery"], "Battery12")
    ensures !Enabled(["Inverter", "Battery"], "InverterX")
    ensures !Enabled(["Inverter", "Battery"], "Inv")
  {
    var entries := ["Inverter", "Battery"];
    assert MatchesEntry(entries[0], "Inverter");
    assert MatchesEntry(entries[1], "Battery12");
    assert !MatchesEntry("Inverter", "InverterX") by {
      assert "InverterX"[8..][0] == 'X';
    }
    assert !MatchesEntry("Battery", "InverterX") by {
      assert "InverterX"[..7] != "Battery" by { assert "InverterX"[0] == 'I'; }
    }
  }
}
