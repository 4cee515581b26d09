/**
 * `readInfo` and the globals it leaves behind: the subscription topic is the
 * configured `MQTT_Topic` with every templated segment turned into the MQTT
 * wildcard `+`, and the one message received on it is merged into `globals`
 * together with the topic it arrived on; afterwards the plant name and the
 * timestamp format from the configuration are added.
 */
module BrokerInfo {
  import opened Wrappers
  import opened JsString
  import opened JsObject
  import ConfigFile

  /** The end of the run that `[^}]*` matches from `i`: the first `}` at or after `i`, or the end. */
  function CloseIndex(s: String, i: nat): (f: nat)
    requires i <= |s|
    ensures i <= f <= |s|
    ensures forall m | i <= m < f :: s[m] != '}'
    ensures f < |s| ==> s[f] == '}'
    decreases |s| - i
  {
    if i < |s| && s[i] != '}' then CloseIndex(s, i + 1) else i
  }

  /**
   * `[^/]+{[^}]+}` matches at the start of `s` with its `{` at `k`: at least
   * one character other than `/` before the brace, and at least one
   * character before the first `}` after it.
   */
  predicate GroupAt(s: String, k: nat) {
    && 0 < k < |s| && s[k] == '{'
    && (forall m | 0 <= m < k :: s[m] != '/')
    && k + 2 <= CloseIndex(s, k + 1) < |s|
  }

  /** The greedy `[^/]+` backs off from the longest run: the last workable `{` at or before `k`. */
  function LastGroup(s: String, k: nat): (r: Option<nat>)
    ensures r.Some? ==> r.value <= k && GroupAt(s, r.value)
    ensures r.Some? ==> forall k': nat | r.value < k' <= k :: !GroupAt(s, k')
    ensures r.None? ==> forall k': nat | k' <= k :: !GroupAt(s, k')
    decreases k
  {
    if GroupAt(s, k) then Some(k)
    else if k == 0 then None
    else LastGroup(s, k - 1)
  }

  /** The end of the match at the start of `s`, if one starts there. */
  function MatchEnd(s: String): (r: Option<nat>)
    ensures r.Some? ==> 0 < r.value <= |s|
    ensures r.None? <==> forall k: nat :: !GroupAt(s, k)
  {
    match LastGroup(s, |s|)
    case None => None
    case Some(k) => Some(CloseIndex(s, k + 1) + 1)
  }

  /**
   * `s.replace(/[^/]+{[^}]+}/ig, '+')`: the scan tries each position in turn;
   * a match is replaced by `+` and the scan resumes after it.
   */
  function RewriteTopic(s: String): String
    decreases |s|
  {
    if s == [] then []
    else match MatchEnd(s)
      case Some(e) => "+" + RewriteTopic(s[e..])
      case None => [s[0]] + RewriteTopic(s[1..])
  }

  /** A segment of a topic: plain text, or a non-empty prefix followed by a `{name}` placeholder. */
  datatype Segment = Plain(text: String) | Templated(prefix: String, name: String)

  predicate WellFormed(seg: Segment) {
    match seg
    case Plain(t) => '/' !in t && '{' !in t
    case Templated(p, n) => p != [] && n != [] && '/' !in p && '{' !in p && '/' !in n && '{' !in n && '}' !in n
  }

  function Render(seg: Segment): String {
    match seg
    case Plain(t) => t
    case Templated(p, n) => p + "{" + n + "}"
  }

  /** What the subscription should contain for a segment: `+` in place of a templated one. */
  function Wildcard(seg: Segment): String {
    match seg
    case Plain(t) => t
    case Templated(_, _) => "+"
  }

  function RenderAll(segs: seq<Segment>): String {
    if segs == [] then [] else Join(SegmentTexts(segs, false), "/")
  }

  function SegmentTexts(segs: seq<Segment>, wild: bool): (r: seq<String>)
    ensures |r| == |segs|
  {
    if segs == [] then [] else [if wild then Wildcard(segs[0]) else Render(segs[0])] + SegmentTexts(segs[1..], wild)
  }

  /** A `/` never starts a match, so it is copied. */
  lemma RewriteSlash(rest: String)
    ensures RewriteTopic("/" + rest) == "/" + RewriteTopic(rest)
  {
    var s := "/" + rest;
    assert s[0] == '/';
    assert s[1..] == rest;
  }

  /** Plain text up to a `/` or the end holds no match and is copied. */
  lemma {:induction false} RewritePlain(t: String, rest: String)
    requires '{' !in t
    requires rest == [] || rest[0] == '/'
    ensures RewriteTopic(t + rest) == t + RewriteTopic(rest)
    decreases |t|
  {
    if t != [] {
      var s := t + rest;
      PlainHasNoMatch(t, rest);
      assert s[1..] == t[1..] + rest;
      assert RewriteTopic(s) == [t[0]] + RewriteTopic(t[1..] + rest);
      RewritePlain(t[1..], rest);
      assert t == [t[0]] + t[1..];
    } else {
      assert t + rest == rest;
    }
  }

  /** No match starts at the beginning of plain text that runs up to a `/` or the end. */
  lemma PlainHasNoMatch(t: String, rest: String)
    requires '{' !in t
    requires rest == [] || rest[0] == '/'
    ensures MatchEnd(t + rest) == None
  {
    var s := t + rest;
    forall k: nat ensures !GroupAt(s, k) {
      if 0 < k < |s| && s[k] == '{' && |t| <= k {
        assert s[|t|] == '/';
      }
    }
  }

  /** A templated segment up to a `/` or the end is one match, replaced by `+`. */
  lemma RewriteTemplated(p: String, n: String, rest: String)
    requires WellFormed(Templated(p, n))
    requires rest == [] || rest[0] == '/'
    ensures RewriteTopic(p + "{" + n + "}" + rest) == "+" + RewriteTopic(rest)
  {
    var s := p + "{" + n + "}" + rest;
    var k := |p|;
    var f := |p| + 1 + |n|;
    assert s[k] == '{' && s[f] == '}';
    forall m | k + 1 <= m < f ensures s[m] != '}' {
      assert s[m] == n[m - k - 1];
    }
    assert forall m | 0 <= m < k :: s[m] == p[m];
    assert CloseIndex(s, k + 1) == f;
    assert GroupAt(s, k);
    forall k': nat | k < k' <= |s| ensures !GroupAt(s, k') {
      if k' < f {
        assert s[k'] == n[k' - k - 1];
      } else if f < k' && k' < |s| {
        assert s[f + 1] == '/';
      }
    }
    assert LastGroup(s, |s|) == Some(k);
    assert s[f + 1..] == rest;
  }

  lemma WildcardSegment(seg: Segment, rest: String)
    requires WellFormed(seg)
    requires rest == [] || rest[0] == '/'
    ensures RewriteTopic(Render(seg) + rest) == Wildcard(seg) + RewriteTopic(rest)
  {
    match seg
    case Plain(t) => RewritePlain(t, rest);
    case Templated(p, n) => RewriteTemplated(p, n, rest);
  }

  /**
   * On a topic built from well-formed segments joined by `/`, the rewrite
   * replaces exactly the templated segments by `+` and keeps the rest.
   */
  lemma {:induction false} RewriteSegments(segs: seq<Segment>)
    requires forall i | 0 <= i < |segs| :: WellFormed(segs[i])
    ensures RewriteTopic(RenderAll(segs)) == Join(SegmentTexts(segs, true), "/")
    decreases |segs|
  {
    if |segs| == 1 {
      WildcardSegment(segs[0], []);
      assert Render(segs[0]) + [] == Render(segs[0]);
    } else if |segs| > 1 {
      var tail := RenderAll(segs[1..]);
      assert RenderAll(segs) == Render(segs[0]) + ("/" + tail);
      WildcardSegment(segs[0], "/" + tail);
      RewriteSlash(tail);
      RewriteSegments(segs[1..]);
    }
  }

  /** A topic in which no `{` has a character other than `/` before it is subscribed to as it is. */
  lemma {:induction false} RewriteKeepsBareBraces(s: String)
    requires forall k | 0 <= k < |s| && s[k] == '{' :: k == 0 || s[k - 1] == '/'
    ensures RewriteTopic(s) == s
    decreases |s|
  {
    if s != [] {
      BareBracesNoMatch(s);
      assert RewriteTopic(s) == [s[0]] + RewriteTopic(s[1..]);
      assert forall k | 0 <= k < |s[1..]| && s[1..][k] == '{' :: s[k + 1] == '{';
      RewriteKeepsBareBraces(s[1..]);
    }
  }

  /** Where every `{` starts the text or follows a `/`, no match starts at the beginning. */
  lemma BareBracesNoMatch(s: String)
    requires forall k | 0 <= k < |s| && s[k] == '{' :: k == 0 || s[k - 1] == '/'
    ensures MatchEnd(s) == None
  {
    forall k: nat ensures !GroupAt(s, k) {
      if 0 < k < |s| && s[k] == '{' {
        assert s[k - 1] == '/';
      }
    }
  }

  /** A topic without `{` is subscribed to as it is. */
  lemma NoBraceNoRewrite(s: String)
    requires '{' !in s
    ensures RewriteTopic(s) == s
  {
    RewriteKeepsBareBraces(s);
  }

  /** A segment that is only a placeholder stays in the subscription as it is. */
  lemma RewriteBareExample()
    ensures RewriteTopic("site/{id}/state") == "site/{id}/state"
  {
    var s := "site/{id}/state";
    assert forall k | 0 <= k < |s| && s[k] == '{' :: k == 5;
    RewriteKeepsBareBraces(s);
  }

  /** The topic `readInfo` subscribes to; `None` where reading `MQTT_Topic` of the configuration fails. */
  function SubscriptionTopic(cfg: ConfigFile.Config): (r: Option<String>)
    ensures r.Some? <==> "MQTT_Topic" in cfg
  {
    if "MQTT_Topic" in cfg then Some(RewriteTopic(cfg["MQTT_Topic"])) else None
  }

  /** `{ ...msg, ...globals, MQTT_Topic: topic }`. */
  function MergeMessage(msg: Object, globals: Object, topic: String): Object {
    Set(Spread(msg, globals), "MQTT_Topic", topic)
  }

  /**
   * After the merge, `MQTT_Topic` is the topic the message arrived on, a key
   * already in `globals` keeps its value over the message's, and every other
   * key of the message is kept; the message's keys come first, in
   * enumeration order.
   */
  lemma MergeMessageShape(msg: Object, globals: Object, topic: String)
    requires Valid(msg) && Valid(globals)
    ensures var r := MergeMessage(msg, globals, topic);
      && Valid(r)
      && r.vals == (msg.vals + globals.vals)["MQTT_Topic" := topic]
      && Get(r, "MQTT_Topic") == Some(topic)
      && |Enumerate(msg)| <= |r.keys| && r.keys[..|Enumerate(msg)|] == Enumerate(msg)
  {
    SpreadShape(msg, globals);
    var s := Spread(msg, globals);
    SetValid(s, "MQTT_Topic", topic);
    SetKeepsPrefix(s, "MQTT_Topic", topic, Enumerate(msg));
  }

  /** `o[k] = v` keeps every prefix of the key order. */
  lemma SetKeepsPrefix(o: Object, k: String, v: String, p: seq<String>)
    requires |p| <= |o.keys| && o.keys[..|p|] == p
    ensures var r := Set(o, k, v); |p| <= |r.keys| && r.keys[..|p|] == p
  {
    var r := Set(o, k, v);
    if k !in o.vals {
      assert r.keys[..|p|] == (o.keys + [k])[..|p|];
    }
  }

  /** `globals.PLANTNAME = config.Plantname; globals.ts = config.DateTimeFormat`. */
  function PlantGlobals(globals: Object, cfg: ConfigFile.Config): Object {
    Set(Set(globals, "PLANTNAME", ConfigFile.Lookup(cfg, "Plantname")), "ts", ConfigFile.Lookup(cfg, "DateTimeFormat"))
  }

  /** The two added globals read the plant name and timestamp format; `MQTT_Topic` and every other global are unchanged. */
  lemma PlantGlobalsShape(globals: Object, cfg: ConfigFile.Config)
    requires Valid(globals)
    ensures var r := PlantGlobals(globals, cfg);
      && Valid(r)
      && r.vals == globals.vals["PLANTNAME" := ConfigFile.Lookup(cfg, "Plantname")]["ts" := ConfigFile.Lookup(cfg, "DateTimeFormat")]
      && Get(r, "MQTT_Topic") == Get(globals, "MQTT_Topic")
  {
    SetValid(globals, "PLANTNAME", ConfigFile.Lookup(cfg, "Plantname"));
  }
}
