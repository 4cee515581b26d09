/**
 * The publish-command matcher (`matchConfig`): a template line that invokes
 * `/usr/bin/mosquitto_pub … -t TOPIC … -m "…}"` gives the device in progress
 * its topic and discovery payload, after `$key` placeholders are replaced by
 * the merged global and device variables.
 */
module PublishCommand {
  import opened Wrappers
  import opened JsString
  import opened JsObject
  import opened Devices

  const Command := "/usr/bin/mosquitto_pub"

  /** The placeholder for the add-on's name, replaced by the fixed name `SBFspot`. */
  const AddonName := "$(bashio::addon.name)\"\""

  /** The two captures of the publish regular expression. */
  datatype Publish = Publish(topic: String, payload: String)

  ghost predicate NoLineBreak(s: String) {
    forall k | 0 <= k < |s| :: !IsLineTerminator(s[k])
  }

  /** `line[i..]` starts with `p`, letters compared without case. */
  predicate StartsWithFolded(line: String, i: nat, p: String) {
    i + |p| <= |line| && forall k | 0 <= k < |p| :: Lower(line[i + k]) == Lower(p[k])
  }

  /** The option `-t` or `-m` (either case) at `i`. */
  predicate FlagAt(line: String, i: nat, letter: char) {
    i + 2 <= |line| && line[i] == '-' && Lower(line[i + 1]) == letter
  }

  /**
   * `(".+}")` can match from `e` with its closing `}"` at `q`: a quote at
   * `e`, at least one character before `q`, and none of them a line break.
   */
  predicate ClosesAt(line: String, e: nat, q: nat) {
    && e < |line| && line[e] == '"'
    && e + 2 <= q && q + 2 <= |line|
    && line[q] == '}' && line[q + 1] == '"'
    && forall k | e + 1 <= k < q :: !IsLineTerminator(line[k])
  }

  /** The greedy `.+` ends at the last possible closing `}"` at or before `q`. */
  function LastClose(line: String, e: nat, q: nat): (r: Option<nat>)
    ensures r.Some? ==> r.value <= q && ClosesAt(line, e, r.value)
    ensures r.Some? ==> forall q': nat | r.value < q' <= q :: !ClosesAt(line, e, q')
    ensures r.None? ==> forall q': nat | q' <= q :: !ClosesAt(line, e, q')
    decreases q
  {
    if ClosesAt(line, e, q) then Some(q)
    else if q == 0 then None
    else LastClose(line, e, q - 1)
  }

  /**
   * The publish regular expression
   * `^\s*\/usr\/bin\/mosquitto_pub.*-t\s*([^\s]+)\s*-m\s*(".+}")+` (case-insensitive)
   * matches with `.*` ending at `a`, where `-t` starts, and the topic capture
   * ending at `t`.
   */
  predicate PublishAt(line: String, a: nat, t: nat) {
    var i := SkipSpace(line, 0);
    && StartsWithFolded(line, i, Command)
    && i + |Command| <= a
    && FlagAt(line, a, 't')
    && (forall k | i + |Command| <= k < a :: !IsLineTerminator(line[k]))
    && var c := SkipSpace(line, a + 2);
    && c < t <= |line|
    && (forall k | c <= k < t :: !IsSpace(line[k]))
    && var d := SkipSpace(line, t);
    && FlagAt(line, d, 'm')
    && LastClose(line, SkipSpace(line, d + 2), |line|).Some?
  }

  /** The captures of a match at `(a, t)`: the topic, and the payload from its opening quote to its last closing `}"`. */
  function Captures(line: String, a: nat, t: nat): (r: Publish)
    requires PublishAt(line, a, t)
    ensures NoLineBreak(r.payload)
  {
    var c := SkipSpace(line, a + 2);
    var d := SkipSpace(line, t);
    var e := SkipSpace(line, d + 2);
    var q := LastClose(line, e, |line|).value;
    Publish(line[c..t], line[e..q + 2])
  }

  /**
   * The topic capture is non-empty and free of white space. The payload
   * capture starts at the quote where `(".+}")` starts, ends with `}"`, has
   * at least one character between the two, and no closing `}"` later in
   * the line could end it instead.
   */
  lemma CapturesShape(line: String, a: nat, t: nat)
    requires PublishAt(line, a, t)
    ensures var r := Captures(line, a, t);
      && 0 < |r.topic| && forall k | 0 <= k < |r.topic| :: !IsSpace(r.topic[k])
    ensures var r := Captures(line, a, t);
      var e := SkipSpace(line, SkipSpace(line, t) + 2);
      && 4 <= |r.payload| && e + |r.payload| <= |line|
      && r.payload == line[e..e + |r.payload|]
      && r.payload[0] == '"'
      && r.payload[|r.payload| - 2..] == "}\""
      && forall q: nat | e + |r.payload| - 2 < q :: !ClosesAt(line, e, q)
  {
    var d := SkipSpace(line, t);
    PayloadShape(line, SkipSpace(line, d + 2));
    TopicShape(line, SkipSpace(line, a + 2), t);
  }

  /** The greedy payload capture from `e`: quote, at least one character, `}"`, and no later close. */
  lemma PayloadShape(line: String, e: nat)
    requires LastClose(line, e, |line|).Some?
    ensures var p := line[e..LastClose(line, e, |line|).value + 2];
      && 4 <= |p| && e + |p| <= |line|
      && p == line[e..e + |p|]
      && p[0] == '"'
      && p[|p| - 2..] == "}\""
      && forall q: nat | e + |p| - 2 < q :: !ClosesAt(line, e, q)
  {
    var q := LastClose(line, e, |line|).value;
    var p := line[e..q + 2];
    assert p[|p| - 2..] == [line[q], line[q + 1]];
  }

  /** The topic capture `[^\s]+` between `c` and `t`. */
  lemma TopicShape(line: String, c: nat, t: nat)
    requires c < t <= |line|
    requires forall k | c <= k < t :: !IsSpace(line[k])
    ensures 0 < |line[c..t]| && forall k | 0 <= k < |line[c..t]| :: !IsSpace(line[c..t][k])
  {
  }

  /** The largest `n`, at most `t`, that satisfies `p`. */
  function LastWhere(p: nat -> bool, t: nat): (r: Option<nat>)
    ensures r.Some? ==> r.value <= t && p(r.value)
    ensures r.Some? ==> forall n: nat | r.value < n <= t :: !p(n)
    ensures r.None? ==> forall n: nat | n <= t :: !p(n)
    decreases t
  {
    if p(t) then Some(t)
    else if t == 0 then None
    else LastWhere(p, t - 1)
  }

  /** The topic ends that let the rest of the line match with `-t` at `a`. */
  function TopicEnds(line: String, a: nat): nat -> bool {
    (t: nat) => PublishAt(line, a, t)
  }

  /** The longest topic, at most `t` long, that lets the rest match with `-t` at `a`. */
  function ScanTopic(line: String, a: nat, t: nat): (r: Option<nat>) {
    LastWhere(TopicEnds(line, a), t)
  }

  /** The topic end found is a match, and no longer topic up to `t` is. */
  lemma ScanTopicFinds(line: String, a: nat, t: nat)
    ensures var r := ScanTopic(line, a, t);
      && (r.Some? ==> r.value <= t && PublishAt(line, a, r.value))
      && (r.Some? ==> forall t': nat | r.value < t' <= t :: !PublishAt(line, a, t'))
      && (r.None? ==> forall t': nat | t' <= t :: !PublishAt(line, a, t'))
  {
    var p := TopicEnds(line, a);
    var r := LastWhere(p, t);
    if r.Some? {
      assert p(r.value);
      forall t': nat | r.value < t' <= t ensures !PublishAt(line, a, t') {
        assert !p(t');
      }
    } else {
      forall t': nat | t' <= t ensures !PublishAt(line, a, t') {
        assert !p(t');
      }
    }
  }

  /** The `-t` positions from which the rest of the line matches with some topic. */
  function FlagPositions(line: String): nat -> bool {
    (a: nat) => ScanTopic(line, a, |line|).Some?
  }

  /** The last `-t`, at or before `a`, from which the rest matches, with its longest topic. */
  function ScanFlag(line: String, a: nat): (r: Option<(nat, nat)>) {
    match LastWhere(FlagPositions(line), a)
    case None => None
    case Some(f) => Some((f, ScanTopic(line, f, |line|).value))
  }

  /** The `-t` found is the last one at or before `a` from which the rest matches. */
  lemma ScanFlagFinds(line: String, a: nat)
    ensures var r := ScanFlag(line, a);
      && (r.Some? ==> r.value.0 <= a && ScanTopic(line, r.value.0, |line|) == Some(r.value.1))
      && (r.Some? ==> forall a': nat, t': nat | r.value.0 < a' <= a :: !PublishAt(line, a', t'))
      && (r.None? ==> forall a': nat, t': nat | a' <= a :: !PublishAt(line, a', t'))
  {
    var p := FlagPositions(line);
    var l := LastWhere(p, a);
    if l.Some? {
      assert p(l.value);
    }
    forall a': nat, t': nat | (l.Some? && l.value < a' <= a) || (l.None? && a' <= a)
      ensures !PublishAt(line, a', t')
    {
      assert !p(a');
      ScanTopicFinds(line, a', |line|);
    }
  }

  /**
   * The regular expression's captures on `line`, if it matches: the match the
   * backtracking engine finds first, with `.*` as long as possible (the last
   * workable `-t`) and then the topic as long as possible.
   */
  function ParsePublish(line: String): (r: Option<Publish>)
    ensures r.Some? ==> NoLineBreak(r.value.payload)
  {
    match ScanFlag(line, |line|)
    case None => None
    case Some((a, t)) =>
      ScanFlagFinds(line, |line|);
      ScanTopicFinds(line, a, |line|);
      Some(Captures(line, a, t))
  }

  /**
   * The expression matches exactly when some `-t` position and topic end
   * satisfy `PublishAt`, and the captures are those of the latest such `-t`
   * with the longest topic after it.
   */
  lemma ParsePublishMatches(line: String)
    ensures ParsePublish(line).None? <==> forall a: nat, t: nat :: !PublishAt(line, a, t)
    ensures ParsePublish(line).Some? ==> exists a: nat, t: nat ::
      && PublishAt(line, a, t) && ParsePublish(line).value == Captures(line, a, t)
      && forall a': nat, t': nat | PublishAt(line, a', t') :: a' < a || (a' == a && t' <= t)
  {
    ScanFlagFinds(line, |line|);
    var r := ScanFlag(line, |line|);
    if r.None? {
      assert ParsePublish(line).None?;
      forall a: nat, t: nat ensures !PublishAt(line, a, t) {
        if a > |line| {
          assert !FlagAt(line, a, 't');
        }
      }
    } else {
      var (a, t) := r.value;
      ScanTopicFinds(line, a, |line|);
      assert PublishAt(line, a, t);
      assert ParsePublish(line) == Some(Captures(line, a, t));
      forall a': nat, t': nat | PublishAt(line, a', t') ensures a' < a || (a' == a && t' <= t) {
        assert a' <= |line| && t' <= |line|;
      }
    }
  }

  predicate QuotedAt(s: String, i: nat, j: nat) {
    i + 3 <= j && OccursAt(s, "\"'", i) && OccursAt(s, "'\"", j)
  }

  /** The last occurrence of `p` starting at or before `i`. */
  function LastIndexOf(s: String, p: String, i: nat): (r: Option<nat>)
    ensures r.Some? ==> r.value <= i && OccursAt(s, p, r.value)
    ensures r.Some? ==> forall k: nat | r.value < k <= i :: !OccursAt(s, p, k)
    ensures r.None? ==> forall k: nat | k <= i :: !OccursAt(s, p, k)
    decreases i
  {
    if OccursAt(s, p, i) then Some(i)
    else if i == 0 then None
    else LastIndexOf(s, p, i - 1)
  }

  /**
   * `s.replace(/"'(.+)'"/ig, '$1')` on a text without line breaks: the first
   * `"'` and the last `'"`, when at least one character lies between them,
   * are removed; otherwise nothing matches.
   */
  function StripQuotes(s: String): (r: String)
    requires NoLineBreak(s)
    ensures (forall i: nat, j: nat :: !QuotedAt(s, i, j)) ==> r == s
  {
    match (IndexOf(s, "\"'", 0), LastIndexOf(s, "'\"", |s|))
    case (Some(i), Some(j)) =>
      if i + 3 <= j then assert QuotedAt(s, i, j); s[..i] + s[i + 2..j] + s[j + 2..] else s
    case _ =>
      s
  }

  /** When the first `"'` and the last `'"` enclose at least one character, both are removed. */
  lemma StripQuotesOutermost(s: String, i: nat, j: nat)
    requires NoLineBreak(s)
    requires QuotedAt(s, i, j)
    requires forall k: nat | k < i :: !OccursAt(s, "\"'", k)
    requires forall k: nat | j < k :: !OccursAt(s, "'\"", k)
    ensures StripQuotes(s) == s[..i] + s[i + 2..j] + s[j + 2..]
  {
    var first := IndexOf(s, "\"'", 0);
    var last := LastIndexOf(s, "'\"", |s|);
    assert first == Some(i);
    assert last == Some(j);
  }

  /**
   * The `for (const key in vars)` loop: for each key in turn, every `$key`
   * in the payload and every `"$key"` in the topic become the key's value.
   */
  function SubstituteKeys(cmd: Publish, vars: Object, keys: seq<String>): Publish
    decreases |keys|
  {
    if keys == [] then cmd
    else
      var done := SubstituteKeys(cmd, vars, keys[..|keys| - 1]);
      var k := keys[|keys| - 1];
      Publish(ReplaceAll(done.topic, "\"$" + k + "\"", ValueOf(vars, k)),
              ReplaceAll(done.payload, "$" + k, ValueOf(vars, k)))
  }

  /** Substituting one more key: its placeholders are replaced in what the earlier keys left. */
  lemma SubstituteNext(cmd: Publish, vars: Object, keys: seq<String>, i: nat)
    requires i < |keys|
    ensures var done := SubstituteKeys(cmd, vars, keys[..i]);
      var k := keys[i];
      SubstituteKeys(cmd, vars, keys[..i + 1]) ==
        Publish(ReplaceAll(done.topic, "\"$" + k + "\"", ValueOf(vars, k)), ReplaceAll(done.payload, "$" + k, ValueOf(vars, k)))
  {
    assert keys[..i + 1][..i] == keys[..i];
  }

  /**
   * One step of the loop, for a value free of `$`: the payload is cut at
   * every `$key` into pieces that hold no `$key` and reassemble the text,
   * and the pieces are rejoined with the value; the topic likewise at every
   * `"$key"`.
   */
  lemma SubstituteStep(cmd: Publish, vars: Object, keys: seq<String>, i: nat)
    requires i < |keys| && '$' !in ValueOf(vars, keys[i])
    ensures var done := SubstituteKeys(cmd, vars, keys[..i]);
      var next := SubstituteKeys(cmd, vars, keys[..i + 1]);
      var p := "$" + keys[i];
      var pieces := Split(done.payload, p);
      && next.payload == Join(pieces, ValueOf(vars, keys[i]))
      && Join(pieces, p) == done.payload
      && forall j | 0 <= j < |pieces| :: !Contains(pieces[j], p)
    ensures var done := SubstituteKeys(cmd, vars, keys[..i]);
      var next := SubstituteKeys(cmd, vars, keys[..i + 1]);
      var q := "\"$" + keys[i] + "\"";
      var pieces := Split(done.topic, q);
      && next.topic == Join(pieces, ValueOf(vars, keys[i]))
      && Join(pieces, q) == done.topic
      && forall j | 0 <= j < |pieces| :: !Contains(pieces[j], q)
  {
    var done := SubstituteKeys(cmd, vars, keys[..i]);
    var v := ValueOf(vars, keys[i]);
    SubstituteNext(cmd, vars, keys, i);
    ReplaceAllIsSplitJoin(done.payload, "$" + keys[i], v);
    ReplaceAllIsSplitJoin(done.topic, "\"$" + keys[i] + "\"", v);
    SplitJoin(done.payload, "$" + keys[i]);
    SplitJoin(done.topic, "\"$" + keys[i] + "\"");
  }

  /** Text without any `$` has no placeholder, so substitution leaves it alone. */
  lemma {:induction false} SubstituteWithoutDollar(cmd: Publish, vars: Object, keys: seq<String>)
    requires '$' !in cmd.payload && '$' !in cmd.topic
    ensures SubstituteKeys(cmd, vars, keys) == cmd
    decreases |keys|
  {
    if keys != [] {
      SubstituteWithoutDollar(cmd, vars, keys[..|keys| - 1]);
      var k := keys[|keys| - 1];
      NoDollarNoPlaceholder(cmd.payload, "$" + k);
      NoDollarNoPlaceholder(cmd.topic, "\"$" + k + "\"");
      ReplaceAllAbsent(cmd.payload, "$" + k, ValueOf(vars, k));
      ReplaceAllAbsent(cmd.topic, "\"$" + k + "\"", ValueOf(vars, k));
    }
  }

  lemma NoDollarNoPlaceholder(s: String, p: String)
    requires '$' !in s && '$' in p
    ensures !Contains(s, p)
  {
  }

  /**
   * The keys are applied one after another, so their order matters: with
   * variables `id` and `id2`, visiting `id` first turns `$id2` into the value
   * of `id` followed by `2`, while visiting `id2` first gives `id2`'s value.
   */
  lemma SubstitutionOrderMatters()
    ensures var vars := Object(["id", "id2"], map["id" := "A", "id2" := "B"]);
      && SubstituteKeys(Publish("t", "$id2"), vars, ["id", "id2"]).payload == "A2"
      && SubstituteKeys(Publish("t", "$id2"), vars, ["id2", "id"]).payload == "B"
  {
    var vars := Object(["id", "id2"], map["id" := "A", "id2" := "B"]);
    SubstituteTwo(Publish("t", "$id2"), vars, "id", "id2");
    SubstituteTwo(Publish("t", "$id2"), vars, "id2", "id");
    assert "$" + "id" == "$id" && "$" + "id2" == "$id2";
    assert ValueOf(vars, "id") == "A" && ValueOf(vars, "id2") == "B";
    ReplaceShorterKey();
    ReplaceLongerKey();
  }

  /** `$id` is a prefix of `$id2`, so replacing it leaves the `2`; no `$id2` remains. */
  lemma ReplaceShorterKey()
    ensures ReplaceAll(ReplaceAll("$id2", "$id", "A"), "$id2", "B") == "A2"
  {
    assert OccursAt("$id2", "$id", 0);
    assert IndexOf("$id2", "$id", 3) == None;
    assert ReplaceAll("$id2", "$id", "A") == "A2";
    ReplaceAllAbsent("A2", "$id2", "B");
  }

  /** `$id2` replaced first leaves no `$id`. */
  lemma ReplaceLongerKey()
    ensures ReplaceAll(ReplaceAll("$id2", "$id2", "B"), "$id", "A") == "B"
  {
    assert OccursAt("$id2", "$id2", 0);
    assert ReplaceAll("$id2", "$id2", "B") == "B";
    ReplaceAllAbsent("B", "$id", "A");
  }

  /** Two keys: the payload has the first key's placeholders replaced, then the second's. */
  lemma SubstituteTwo(cmd: Publish, vars: Object, k1: String, k2: String)
    ensures SubstituteKeys(cmd, vars, [k1, k2]).payload ==
      ReplaceAll(ReplaceAll(cmd.payload, "$" + k1, ValueOf(vars, k1)), "$" + k2, ValueOf(vars, k2))
  {
    var ks := [k1, k2];
    SubstituteNext(cmd, vars, ks, 0);
    SubstituteNext(cmd, vars, ks, 1);
    assert ks[..0] == [] && ks[..2] == ks;
  }

  /**
   * What a matching publish line does to the device in progress: the quotes
   * and the add-on name are resolved in the payload, the placeholders of
   * both captures are substituted from the globals overridden by the
   * device's variables, and the topic and trimmed payload are attached with
   * `globals.MQTT_Topic` as the state topic.
   */
  function Configure(d: Device, globals: Object, cmd: Publish): Device
    requires NoLineBreak(cmd.payload)
  {
    var vars := Spread(globals, d.variables);
    var payload := ReplaceAll(StripQuotes(cmd.payload), AddonName, "SBFspot");
    var out := SubstituteKeys(Publish(cmd.topic, payload), vars, Enumerate(vars));
    d.(topic := Some(out.topic), config := Some(Discovery(Trim(out.payload), Get(globals, "MQTT_Topic"))))
  }

  /** `matchConfig(line)` on the parser state; `None` when the line throws because no device exists yet. */
  function MatchConfig(st: Parse, globals: Object, line: String): Option<Parse> {
    match ParsePublish(line)
    case None => Some(st)
    case Some(cmd) =>
      if st.device.None? then None
      else Some(Parse(Some(Configure(st.device.value, globals, cmd)), st.devices))
  }

  /** A line the publish regular expression does not match changes nothing. */
  lemma MatchConfigIgnores(st: Parse, globals: Object, line: String)
    requires forall a: nat, t: nat :: !PublishAt(line, a, t)
    ensures MatchConfig(st, globals, line) == Some(st)
  {
    ParsePublishMatches(line);
  }

  /** A publish line before any device fails at `device.variables`. */
  lemma MatchConfigWithoutDevice(st: Parse, globals: Object, line: String)
    requires exists a: nat, t: nat :: PublishAt(line, a, t)
    requires st.device.None?
    ensures MatchConfig(st, globals, line) == None
  {
    ParsePublishMatches(line);
  }

  /**
   * A publish line with a device in progress sets that device's topic and
   * config and nothing else; the config's `state_topic` is `globals.MQTT_Topic`
   * whatever the payload held, and the variables the placeholders draw on are
   * the globals overridden by the device's own variables.
   */
  lemma MatchConfigSets(st: Parse, globals: Object, line: String)
    requires st.Valid() && JsObject.Valid(globals)
    requires exists a: nat, t: nat :: PublishAt(line, a, t)
    requires st.device.Some?
    ensures var r := MatchConfig(st, globals, line);
      var d := st.device.value;
      && r.Some? && r.value.devices == st.devices && r.value.device.Some?
      && r.value.device.value.name == d.name
      && r.value.device.value.variables == d.variables
      && r.value.device.value.topic.Some?
      && r.value.device.value.config.Some?
      && r.value.device.value.config.value.stateTopic == Get(globals, "MQTT_Topic")
      && r.value.Valid()
    ensures Spread(globals, st.device.value.variables).vals == globals.vals + st.device.value.variables.vals
    ensures exists a: nat, t: nat ::
      && PublishAt(line, a, t)
      && (forall a': nat, t': nat | PublishAt(line, a', t') :: a' < a || (a' == a && t' <= t))
      && var cmd := Captures(line, a, t);
         var vars := Spread(globals, st.device.value.variables);
         var out := SubstituteKeys(Publish(cmd.topic, ReplaceAll(StripQuotes(cmd.payload), AddonName, "SBFspot")), vars, Enumerate(vars));
         MatchConfig(st, globals, line) == Some(Parse(Some(st.device.value.(
           topic := Some(out.topic),
           config := Some(Discovery(Trim(out.payload), Get(globals, "MQTT_Topic"))))), st.devices))
  {
    ParsePublishMatches(line);
    SpreadShape(globals, st.device.value.variables);
    var a: nat, t: nat :| && PublishAt(line, a, t) && ParsePublish(line).value == Captures(line, a, t)
      && forall a': nat, t': nat | PublishAt(line, a', t') :: a' < a || (a' == a && t' <= t);
    MatchConfigAt(st, globals, line, a, t);
  }

  /** With the device in progress, the captures of the match chosen are what configure it. */
  lemma MatchConfigAt(st: Parse, globals: Object, line: String, a: nat, t: nat)
    requires PublishAt(line, a, t) && st.device.Some?
    requires ParsePublish(line) == Some(Captures(line, a, t))
    ensures var cmd := Captures(line, a, t);
      var vars := Spread(globals, st.device.value.variables);
      var out := SubstituteKeys(Publish(cmd.topic, ReplaceAll(StripQuotes(cmd.payload), AddonName, "SBFspot")), vars, Enumerate(vars));
      MatchConfig(st, globals, line) == Some(Parse(Some(st.device.value.(
        topic := Some(out.topic),
        config := Some(Discovery(Trim(out.payload), Get(globals, "MQTT_Topic"))))), st.devices))
  {
  }
}
