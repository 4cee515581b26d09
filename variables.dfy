/**
 * The variable-assignment matcher (`matchVariables`): lines of the template
 * shaped like shell assignments `key=value` or `key='value'` accumulate
 * variables on the device in progress; a `value` line finishes that device and
 * starts the next one, which inherits a copy of its variables.
 */
module TemplateVariables {
  import opened Wrappers
  import opened JsString
  import opened JsObject
  import opened Devices
  import ConfigFile

  /** `[a-z0-9_]` under the `i` flag. */
  predicate IsWordChar(c: char) {
    ('a' <= c <= 'z') || ('A' <= c <= 'Z') || IsDigit(c) || c == '_'
  }

  /** `[^'"#]`. */
  predicate IsValueChar(c: char) {
    c != '\'' && c != '"' && c != '#'
  }

  function WordEnd(s: String, i: nat): (j: nat)
    requires i <= |s|
    ensures i <= j <= |s|
    ensures forall k | i <= k < j :: IsWordChar(s[k])
    ensures j < |s| ==> !IsWordChar(s[j])
    decreases |s| - i
  {
    if i < |s| && IsWordChar(s[i]) then WordEnd(s, i + 1) else i
  }

  function ValueEnd(s: String, i: nat): (j: nat)
    requires i <= |s|
    ensures i <= j <= |s|
    ensures forall k | i <= k < j :: IsValueChar(s[k])
    ensures j < |s| ==> !IsValueChar(s[j])
    decreases |s| - i
  {
    if i < |s| && IsValueChar(s[i]) then ValueEnd(s, i + 1) else i
  }

  datatype Assignment = Assignment(key: String, value: String)

  /** `^\s*([a-z0-9_]+)=` matches with the key at `line[i..j]` and the `=` at `j`. */
  predicate AssignsAt(line: String, i: nat, j: nat) {
    && i < j < |line|
    && (forall k | 0 <= k < i :: IsSpace(line[k]))
    && (forall k | i <= k < j :: IsWordChar(line[k]))
    && line[j] == '='
  }

  /** Where `'?([^'"#]*)` starts capturing after the `=` at `j`: past one optional quote. */
  function ValueStart(line: String, j: nat): nat
    requires j < |line|
  {
    if j + 1 < |line| && line[j + 1] == '\'' then j + 2 else j + 1
  }

  /**
   * The match of `^\s*([a-z0-9_]+)='?([^'"#]*)'?` (case-insensitive), with
   * both captures trimmed: the key is the identifier before the `=`, the value
   * the longest run free of quotes and `#` after an optional opening quote.
   */
  function ParseAssignment(line: String): (r: Option<Assignment>) {
    var i := SkipSpace(line, 0);
    var j := WordEnd(line, i);
    if i < j < |line| && line[j] == '=' then
      var k := ValueStart(line, j);
      Some(Assignment(line[i..j], Trim(line[k..ValueEnd(line, k)])))
    else
      None
  }

  /**
   * The expression matches exactly when the line is white space, an
   * identifier and `=`; that identifier is the key, and the value is the
   * trimmed run after the optional quote.
   */
  lemma ParseAssignmentMatches(line: String)
    ensures ParseAssignment(line).Some? <==> exists i: nat, j: nat :: AssignsAt(line, i, j)
    ensures forall i: nat, j: nat | AssignsAt(line, i, j) ::
      ParseAssignment(line) == Some(Assignment(line[i..j], Trim(line[ValueStart(line, j)..ValueEnd(line, ValueStart(line, j))])))
  {
    var i := SkipSpace(line, 0);
    var j := WordEnd(line, i);
    forall i': nat, j': nat | AssignsAt(line, i', j') ensures i' == i && j' == j {
      assert !IsSpace(line[i']);
      assert i' == i;
      assert !IsWordChar(line[j']);
    }
    if i < j < |line| && line[j] == '=' {
      assert AssignsAt(line, i, j);
    }
  }

  /**
   * Read as parts: white space, a non-empty identifier, `=`, an optional
   * quote, a run free of quotes and `#`, then anything that does not continue
   * that run; the key is the identifier and the value the trimmed run.
   */
  lemma AssignmentOfParts(w: String, key: String, quote: String, raw: String, rest: String)
    requires AllSpace(w)
    requires key != [] && forall k | 0 <= k < |key| :: IsWordChar(key[k])
    requires quote == "" || quote == "'"
    requires forall k | 0 <= k < |raw| :: IsValueChar(raw[k])
    requires rest != [] ==> !IsValueChar(rest[0])
    requires quote == "" && raw == [] ==> rest == [] || rest[0] != '\''
    ensures ParseAssignment(w + key + "=" + quote + raw + rest) == Some(Assignment(key, Trim(raw)))
  {
    AssignmentKeyPart(w, key, quote, raw, rest);
    AssignmentValuePart(w + key + "=", quote, raw, rest);
    ParseAssignmentAt(w + key + "=" + quote + raw + rest, |w|, |w| + |key|, key, raw);
  }

  /** Where the key is matched, the parse reads the key and the trimmed value. */
  lemma ParseAssignmentAt(line: String, i: nat, j: nat, key: String, raw: String)
    requires AssignsAt(line, i, j) && line[i..j] == key
    requires line[ValueStart(line, j)..ValueEnd(line, ValueStart(line, j))] == raw
    ensures ParseAssignment(line) == Some(Assignment(key, Trim(raw)))
  {
    ParseAssignmentMatches(line);
  }

  /** The identifier after the white space, followed by `=`, is matched as the key. */
  lemma AssignmentKeyPart(w: String, key: String, quote: String, raw: String, rest: String)
    requires AllSpace(w)
    requires key != [] && forall k | 0 <= k < |key| :: IsWordChar(key[k])
    ensures var line := w + key + "=" + quote + raw + rest;
      AssignsAt(line, |w|, |w| + |key|) && line[|w|..|w| + |key|] == key
  {
    var line := w + key + "=" + quote + raw + rest;
    var i, j := |w|, |w| + |key|;
    assert forall n | 0 <= n < i :: line[n] == w[n];
    assert forall n | i <= n < j :: line[n] == key[n - i];
    assert line[j] == '=';
    assert line[i..j] == key;
  }

  /** After the `=` that ends `pre`, the optional quote is skipped and the run free of quotes and `#` is captured. */
  lemma AssignmentValuePart(pre: String, quote: String, raw: String, rest: String)
    requires pre != [] && pre[|pre| - 1] == '='
    requires quote == "" || quote == "'"
    requires forall k | 0 <= k < |raw| :: IsValueChar(raw[k])
    requires rest != [] ==> !IsValueChar(rest[0])
    requires quote == "" && raw == [] ==> rest == [] || rest[0] != '\''
    ensures var line := pre + quote + raw + rest;
      var k := |pre| + |quote|;
      && ValueStart(line, |pre| - 1) == k
      && line[k..ValueEnd(line, k)] == raw
  {
    var line := pre + quote + raw + rest;
    var k := |pre| + |quote|;
    assert line[|pre| - 1] == '=';
    if quote != "" {
      assert line[|pre|] == '\'';
    } else if raw != [] {
      assert line[|pre|] == raw[0];
    } else if rest != [] {
      assert line[|pre|] == rest[0];
    }
    assert forall n | k <= n < k + |raw| :: line[n] == raw[n - k];
    assert k + |raw| < |line| ==> line[k + |raw|] == rest[0];
    assert line[k..k + |raw|] == raw;
    assert ValueEnd(line, k) == k + |raw|;
  }

  /** `$(bashio::config` — the template helper that reads an add-on option. */
  const BashioConfig := "$(bashio::config"

  /**
   * `\$\(bashio::config\s+'` matches at `i`; with `needsKey`, it is also
   * followed by at least one character other than a quote (`([^']+)`).
   */
  predicate BashioAt(line: String, i: nat, needsKey: bool) {
    && OccursAt(line, BashioConfig, i)
    && var w := SkipSpace(line, i + |BashioConfig|);
    && i + |BashioConfig| < w < |line|
    && line[w] == '\''
    && (needsKey ==> w + 1 < |line| && line[w + 1] != '\'')
  }

  /** The leftmost position at or after `from` where the helper call matches. */
  function BashioSearch(line: String, from: nat, needsKey: bool): (r: Option<nat>)
    requires from <= |line|
    ensures r.Some? ==> from <= r.value && BashioAt(line, r.value, needsKey)
    ensures r.Some? ==> forall k: nat | from <= k < r.value :: !BashioAt(line, k, needsKey)
    ensures r.None? ==> forall k: nat | from <= k :: !BashioAt(line, k, needsKey)
    decreases |line| - from
  {
    if BashioAt(line, from, needsKey) then Some(from)
    else if from == |line| then None
    else BashioSearch(line, from + 1, needsKey)
  }

  /** The end of the run of non-quote characters from `i` (`[^']+`). */
  function QuoteEnd(s: String, i: nat): (j: nat)
    requires i <= |s|
    ensures i <= j <= |s|
    ensures forall k | i <= k < j :: s[k] != '\''
    ensures j < |s| ==> s[j] == '\''
    decreases |s| - i
  {
    if i < |s| && s[i] != '\'' then QuoteEnd(s, i + 1) else i
  }

  /**
   * The option name the `ts` line reads (`exec(line)?.[1]`), or
   * `"undefined"` when the capture is missing: indexing an object with
   * `undefined` looks up the key "undefined".
   */
  function OptionName(line: String): String {
    match BashioSearch(line, 0, true)
    case None => "undefined"
    case Some(i) => NameAfter(line, i)
  }

  /** The run `[^']+` after the quote that follows a match at `i`. */
  function NameAfter(line: String, i: nat): String
    requires BashioAt(line, i, true)
  {
    var k := SkipSpace(line, i + |BashioConfig|) + 1;
    line[k..QuoteEnd(line, k)]
  }

  /** The captured option name is non-empty and free of quotes; without a capture the key is `undefined`. */
  lemma OptionNameShape(line: String)
    ensures BashioSearch(line, 0, true).None? ==> OptionName(line) == "undefined"
    ensures BashioSearch(line, 0, true).Some? ==> 0 < |OptionName(line)| && '\'' !in OptionName(line)
  {
  }

  /** The value a line stores: for `ts` read through the helper, a non-empty configured option replaces the literal. */
  function StoredValue(a: Assignment, config: ConfigFile.Config, line: String): String {
    if a.key == "ts" && BashioSearch(line, 0, false).Some? then
      var name := OptionName(line);
      if name in config && config[name] != "" then config[name] else a.value
    else a.value
  }

  /** `/[$"]+/.test(value)`: the value needs a shell to resolve. */
  predicate NeedsShell(value: String) {
    '$' in value || '"' in value
  }

  /** The four early returns of `matchVariables`. */
  predicate Ignores(st: Parse, line: String) {
    || ParseAssignment(line).None?
    || NeedsShell(ParseAssignment(line).value.value)
    || (ParseAssignment(line).value.key != "value" && st.device.None?)
    || (ParseAssignment(line).value.key == "value" && ParseAssignment(line).value.value == "")
  }

  /** `matchVariables(line)` on the parser state, with the loaded configuration. */
  function MatchVariables(st: Parse, config: ConfigFile.Config, line: String): Parse {
    if Ignores(st, line) then st
    else
      var a := ParseAssignment(line).value;
      var v := StoredValue(a, config, line);
      if a.key == "value" then
        var inherited := if st.device.Some? then Clone(st.device.value.variables) else Empty;
        var finished := if st.device.Some? then [st.device.value] else [];
        Parse(Some(Device(v, Set(inherited, a.key, v), None, None)), st.devices + finished)
      else
        var d := st.device.value;
        Parse(Some(d.(variables := Set(d.variables, a.key, v))), st.devices)
  }

  /** A line that is no assignment, needs a shell, comes before any device or has an empty `value` changes nothing. */
  lemma MatchVariablesIgnores(st: Parse, config: ConfigFile.Config, line: String)
    requires Ignores(st, line)
    ensures MatchVariables(st, config, line) == st
  {
  }

  /**
   * An accepted `value` line appends the device in progress, unchanged, to
   * `devices` and starts a new device named after the value, with no topic
   * or config, holding a copy of the previous device's variables (none for
   * the first device) plus `value` itself.
   */
  lemma MatchVariablesValueLine(st: Parse, config: ConfigFile.Config, line: String)
    requires st.Valid() && !Ignores(st, line) && ParseAssignment(line).value.key == "value"
    ensures var st' := MatchVariables(st, config, line);
      var v := ParseAssignment(line).value.value;
      && st'.devices == st.devices + (if st.device.Some? then [st.device.value] else [])
      && st'.device.Some?
      && st'.device.value.name == v
      && st'.device.value.topic.None? && st'.device.value.config.None?
      && st'.device.value.variables.vals == (if st.device.Some? then st.device.value.variables.vals else map[])["value" := v]
      && st'.device.value.variables.keys ==
           (if st.device.None? then ["value"]
            else if "value" in st.device.value.variables.vals then Enumerate(st.device.value.variables)
            else Enumerate(st.device.value.variables) + ["value"])
      && st'.Valid()
  {
    if st.device.Some? {
      CloneShape(st.device.value.variables);
      SetValid(Clone(st.device.value.variables), "value", ParseAssignment(line).value.value);
    }
  }

  /**
   * Any other accepted line stores its value under its key on the device in
   * progress; the other variables, the name, topic and config, and `devices`
   * are unchanged.
   */
  lemma MatchVariablesOtherLine(st: Parse, config: ConfigFile.Config, line: String)
    requires st.Valid() && !Ignores(st, line) && ParseAssignment(line).value.key != "value"
    ensures var st' := MatchVariables(st, config, line);
      var a := ParseAssignment(line).value;
      && st.device.Some? && st'.device.Some?
      && st'.devices == st.devices
      && st'.device.value.variables.vals == st.device.value.variables.vals[a.key := StoredValue(a, config, line)]
      && st'.device.value.variables.keys ==
           (if a.key in st.device.value.variables.vals then st.device.value.variables.keys
            else st.device.value.variables.keys + [a.key])
      && st'.device.value.name == st.device.value.name
      && st'.device.value.topic == st.device.value.topic
      && st'.device.value.config == st.device.value.config
      && st'.Valid()
  {
    var a := ParseAssignment(line).value;
    SetValid(st.device.value.variables, a.key, StoredValue(a, config, line));
  }

  /** Characters other than quotes from `i` up to a quote or the end are exactly the run `[^']+` takes. */
  lemma QuoteEndTo(s: String, i: nat, j: nat)
    requires i <= j <= |s|
    requires forall k | i <= k < j :: s[k] != '\''
    requires j < |s| ==> s[j] == '\''
    ensures QuoteEnd(s, i) == j
    decreases j - i
  {
    if i < j {
      QuoteEndTo(s, i + 1, j);
    }
  }

  /** A match at `i` with no `$` before it is the leftmost match, with or without the key. */
  lemma FirstBashio(line: String, i: nat)
    requires BashioAt(line, i, true)
    requires forall k | 0 <= k < i :: line[k] != '$'
    ensures BashioSearch(line, 0, true) == Some(i)
    ensures BashioSearch(line, 0, false) == Some(i)
  {
    forall k: nat | k < i
      ensures !OccursAt(line, BashioConfig, k)
    {
      if k + |BashioConfig| <= |line| {
        assert line[k..k + |BashioConfig|][0] == line[k];
      }
    }
    assert BashioAt(line, i, false);
    var r := BashioSearch(line, 0, false);
    assert r.Some? && r.value <= i;
  }

  /** The option name is the run after the quote that follows the first match. */
  lemma OptionNameAt(line: String, i: nat, w: nat, e: nat)
    requires BashioSearch(line, 0, true) == Some(i)
    requires i + |BashioConfig| <= w < e <= |line|
    requires SkipSpace(line, i + |BashioConfig|) == w
    requires QuoteEnd(line, w + 1) == e
    ensures OptionName(line) == line[w + 1..e]
  {
    assert OptionName(line) == NameAfter(line, i);
  }

  /**
   * A helper call `$(bashio::config`, white space, a quote and an option name
   * that runs to the next quote or to the end of the line, with no `$` before
   * it, is the first match of both expressions, and the name is the option
   * the line reads.
   */
  lemma OptionNameOfParts(pre: String, sp: String, name: String, post: String)
    requires '$' !in pre
    requires sp != [] && AllSpace(sp)
    requires name != [] && '\'' !in name
    requires post == [] || post[0] == '\''
    ensures var line := pre + BashioConfig + sp + "'" + name + post;
      && BashioSearch(line, 0, false) == Some(|pre|)
      && BashioSearch(line, 0, true) == Some(|pre|)
      && OptionName(line) == name
  {
    var line := pre + BashioConfig + sp + "'" + name + post;
    var i := |pre|;
    var b := i + |BashioConfig|;
    var w := b + |sp|;
    var e := w + 1 + |name|;
    assert forall n | 0 <= n < i :: line[n] == pre[n];
    assert line[i..b] == BashioConfig;
    assert forall n | b <= n < w :: line[n] == sp[n - b];
    assert line[w] == '\'';
    assert line[w + 1..e] == name;
    assert e < |line| ==> line[e] == post[0];
    SkipSpaceTo(line, b, w);
    assert BashioAt(line, i, true);
    FirstBashio(line, i);
    QuoteEndTo(line, w + 1, e);
    OptionNameAt(line, i, w, e);
  }

  /**
   * A `ts` line whose literal value is followed by a call of the option
   * helper stores the named option when it is configured and non-empty, and
   * the trimmed literal otherwise; the device's other variables, its name,
   * topic and config, and the finished devices are unchanged.
   */
  lemma TsReadsOption(st: Parse, config: ConfigFile.Config, w: String, quote: String, raw: String,
                      sep: String, sp: String, name: String, post: String)
    requires st.Valid() && st.device.Some?
    requires AllSpace(w)
    requires quote == "" || quote == "'"
    requires forall k | 0 <= k < |raw| :: IsValueChar(raw[k])
    requires '$' !in raw
    requires sep != [] && !IsValueChar(sep[0]) && '$' !in sep
    requires quote == "" && raw == [] ==> sep[0] != '\''
    requires sp != [] && AllSpace(sp)
    requires name != [] && '\'' !in name
    requires post == [] || post[0] == '\''
    ensures var line := w + "ts=" + quote + raw + sep + BashioConfig + sp + "'" + name + post;
      var st' := MatchVariables(st, config, line);
      var stored := if name in config && config[name] != "" then config[name] else Trim(raw);
      && OptionName(line) == name
      && st'.devices == st.devices
      && st'.device.Some?
      && st'.device.value.variables.vals == st.device.value.variables.vals["ts" := stored]
      && st'.device.value.variables.keys ==
           (if "ts" in st.device.value.variables.vals then st.device.value.variables.keys
            else st.device.value.variables.keys + ["ts"])
      && st'.device.value.name == st.device.value.name
      && st'.device.value.topic == st.device.value.topic
      && st'.device.value.config == st.device.value.config
  {
    var rest := sep + BashioConfig + sp + "'" + name + post;
    var pre := w + "ts=" + quote + raw + sep;
    var line := w + "ts=" + quote + raw + sep + BashioConfig + sp + "'" + name + post;
    TsLineParts(w, quote, raw, sep, sp, name, post);
    AssignmentOfParts(w, "ts", quote, raw, rest);
    OptionNameOfParts(pre, sp, name, post);
    TrimWithin(raw);
    TsLine(st, config, line, raw, name);
  }

  /** The `ts` line read as an assignment and as a helper call, and the text before the call has no `$`. */
  lemma TsLineParts(w: String, quote: String, raw: String, sep: String, sp: String, name: String, post: String)
    requires AllSpace(w) && '$' !in raw && '$' !in sep && (quote == "" || quote == "'")
    ensures var line := w + "ts=" + quote + raw + sep + BashioConfig + sp + "'" + name + post;
      && line == w + "ts" + "=" + quote + raw + (sep + BashioConfig + sp + "'" + name + post)
      && line == (w + "ts=" + quote + raw + sep) + BashioConfig + sp + "'" + name + post
      && '$' !in w + "ts=" + quote + raw + sep
  {
    assert forall n | 0 <= n < |w| :: IsSpace(w[n]);
  }

  /**
   * A `ts` assignment with a shell-free literal, on a line that calls the
   * option helper, stores the option or the literal under `ts`.
   */
  lemma TsLine(st: Parse, config: ConfigFile.Config, line: String, raw: String, name: String)
    requires st.Valid() && st.device.Some?
    requires ParseAssignment(line) == Some(Assignment("ts", Trim(raw)))
    requires forall c | c in Trim(raw) :: c in raw
    requires '$' !in raw && '"' !in raw
    requires BashioSearch(line, 0, false).Some? && OptionName(line) == name
    ensures var st' := MatchVariables(st, config, line);
      var stored := if name in config && config[name] != "" then config[name] else Trim(raw);
      && st'.devices == st.devices
      && st'.device.Some?
      && st'.device.value.variables.vals == st.device.value.variables.vals["ts" := stored]
      && st'.device.value.variables.keys ==
           (if "ts" in st.device.value.variables.vals then st.device.value.variables.keys
            else st.device.value.variables.keys + ["ts"])
      && st'.device.value.name == st.device.value.name
      && st'.device.value.topic == st.device.value.topic
      && st'.device.value.config == st.device.value.config
  {
    assert !Ignores(st, line);
    MatchVariablesOtherLine(st, config, line);
  }
}
