/**
 * The configuration loader (`readConfig`): each line of the shell-style
 * configuration file that matches `^([^#=]+)=(.+)` stores its trimmed value
 * under its trimmed key, later lines overwriting earlier ones.
 */
module ConfigFile {
  import opened Wrappers
  import opened JsString

  /** The loaded configuration: key to value. */
  type Config = map<String, String>

  datatype Setting = Setting(key: String, value: String)

  predicate IsMark(c: char) {
    c == '#' || c == '='
  }

  /** The first `#` or `=` at or after `i`, or the end of the line. */
  function MarkIndex(line: String, i: nat): (p: nat)
    requires i <= |line|
    ensures i <= p <= |line|
    ensures forall k | i <= k < p :: !IsMark(line[k])
    ensures p < |line| ==> IsMark(line[p])
    decreases |line| - i
  {
    if i < |line| && !IsMark(line[i]) then MarkIndex(line, i + 1) else i
  }

  /**
   * The regular expression matches with its `=` at `p`: at least one
   * character before it, none of them `#` or `=`, and at least one character
   * that `.` matches right after it.
   */
  predicate SplitsAt(line: String, p: nat) {
    && 0 < p && p + 1 < |line|
    && line[p] == '='
    && (forall k | 0 <= k < p :: !IsMark(line[k]))
    && !IsLineTerminator(line[p + 1])
  }

  /** Where the regular expression puts its `=`, if it matches: at the first `#` or `=` of the line. */
  function SplitIndex(line: String): (r: Option<nat>)
    ensures forall p: nat :: SplitsAt(line, p) <==> r == Some(p)
  {
    var p := MarkIndex(line, 0);
    if p == 0 || p + 1 >= |line| || line[p] != '=' || IsLineTerminator(line[p + 1]) then None
    else Some(p)
  }

  /**
   * The setting a line stores, if any: the key is the trimmed text before the
   * `=`, the value the trimmed text after it up to the end of the line. A `#`
   * after the `=` is kept in the value.
   */
  function ParseConfigLine(line: String): (r: Option<Setting>)
    ensures r.Some? <==> exists p: nat :: SplitsAt(line, p) && Trim(line[..p]) != []
    ensures forall p: nat | SplitsAt(line, p) && r.Some? ::
      r.value == Setting(Trim(line[..p]), Trim(line[p + 1..RunEnd(line, p + 1)]))
  {
    match SplitIndex(line)
    case None => None
    case Some(p) =>
      var key := Trim(line[..p]);
      if key == [] then None
      else Some(Setting(key, Trim(line[p + 1..RunEnd(line, p + 1)])))
  }

  /**
   * `config.K` read as a string: the stored value, or the text `undefined`
   * that string conversion gives a property that was never stored.
   */
  function Lookup(cfg: Config, k: String): String {
    if k in cfg then cfg[k] else "undefined"
  }

  /** What one line does to the configuration (the body of the loop in `readConfig`). */
  function Store(cfg: Config, line: String): Config {
    match ParseConfigLine(line)
    case None => cfg
    case Some(s) => cfg[s.key := s.value]
  }

  /** The configuration after the given lines, read first to last. */
  function Load(cfg: Config, lines: seq<String>): Config
    decreases |lines|
  {
    if lines == [] then cfg else Store(Load(cfg, lines[..|lines| - 1]), lines[|lines| - 1])
  }

  /** Reading one more line stores it into what the earlier lines built. */
  lemma LoadNext(cfg: Config, lines: seq<String>, i: nat)
    requires i < |lines|
    ensures Load(cfg, lines[..i + 1]) == Store(Load(cfg, lines[..i]), lines[i])
  {
    assert lines[..i + 1][..i] == lines[..i];
  }

  predicate StoresKey(line: String, k: String) {
    ParseConfigLine(line).Some? && ParseConfigLine(line).value.key == k
  }

  /** A key is set by the last line that stores it; later lines storing other keys do not touch it. */
  lemma {:induction false} LoadLastWins(cfg: Config, lines: seq<String>, k: String, i: nat)
    requires i < |lines| && StoresKey(lines[i], k)
    requires forall j | i < j < |lines| :: !StoresKey(lines[j], k)
    ensures k in Load(cfg, lines) && Load(cfg, lines)[k] == ParseConfigLine(lines[i]).value.value
    decreases |lines|
  {
    var init := lines[..|lines| - 1];
    if i < |lines| - 1 {
      assert init[i] == lines[i];
      forall j | i < j < |init| ensures !StoresKey(init[j], k) {
        assert init[j] == lines[j];
      }
      LoadLastWins(cfg, init, k, i);
      assert !StoresKey(lines[|lines| - 1], k);
    }
  }

  /** A key that no line stores keeps the value it had before (or stays absent). */
  lemma {:induction false} LoadUntouched(cfg: Config, lines: seq<String>, k: String)
    requires forall j | 0 <= j < |lines| :: !StoresKey(lines[j], k)
    ensures k in Load(cfg, lines) <==> k in cfg
    ensures k in cfg ==> Load(cfg, lines)[k] == cfg[k]
    decreases |lines|
  {
    if lines != [] {
      var init := lines[..|lines| - 1];
      forall j | 0 <= j < |init| ensures !StoresKey(init[j], k) {
        assert init[j] == lines[j];
      }
      LoadUntouched(cfg, init, k);
      assert !StoresKey(lines[|lines| - 1], k);
    }
  }

  /** Loading only ever adds or overwrites keys. */
  lemma {:induction false} LoadKeepsKeys(cfg: Config, lines: seq<String>)
    ensures cfg.Keys <= Load(cfg, lines).Keys
    decreases |lines|
  {
    if lines != [] {
      LoadKeepsKeys(cfg, lines[..|lines| - 1]);
    }
  }
}
