/**
 * The ECMAScript string built-ins the extractor relies on: the `\s` character
 * class, `trim`, `indexOf`, `replaceAll` with a string pattern (including the
 * `$`-patterns of its replacement text), `split` on a string separator, and
 * `join`. Strings are sequences of characters.
 */
module JsString {
  import opened Wrappers

  type String = seq<char>

  /** WhiteSpace and LineTerminator code points: what `\s` matches and `trim` removes. */
  predicate IsSpace(c: char) {
    || c == '\t' || c == '\n' || c == '\U{B}' || c == '\U{C}' || c == '\r' || c == ' '
    || c == '\U{A0}' || c == '\U{1680}' || ('\U{2000}' <= c <= '\U{200A}')
    || c == '\U{2028}' || c == '\U{2029}' || c == '\U{202F}' || c == '\U{205F}'
    || c == '\U{3000}' || c == '\U{FEFF}'
  }

  /** The characters a regular-expression `.` does not match. */
  predicate IsLineTerminator(c: char) {
    c == '\n' || c == '\r' || c == '\U{2028}' || c == '\U{2029}'
  }

  predicate IsDigit(c: char) {
    '0' <= c <= '9'
  }

  /** ASCII case folding, the only folding a non-unicode `/i` regex applies to ASCII patterns. */
  function Lower(c: char): char {
    if 'A' <= c <= 'Z' then (c as int + 32) as char else c
  }

  ghost predicate AllSpace(s: String) {
    forall k | 0 <= k < |s| :: IsSpace(s[k])
  }

  /** The end of the run of white space that starts at `i` (greedy `\s*`). */
  function SkipSpace(s: String, i: nat): (j: nat)
    requires i <= |s|
    ensures i <= j <= |s|
    ensures forall k | i <= k < j :: IsSpace(s[k])
    ensures j < |s| ==> !IsSpace(s[j])
    decreases |s| - i
  {
    if i < |s| && IsSpace(s[i]) then SkipSpace(s, i + 1) else i
  }

  /** White space from `i` up to a character that is not white space is exactly the run skipped. */
  lemma SkipSpaceTo(s: String, i: nat, j: nat)
    requires i <= j <= |s|
    requires forall k | i <= k < j :: IsSpace(s[k])
    requires j < |s| ==> !IsSpace(s[j])
    ensures SkipSpace(s, i) == j
    decreases j - i
  {
    if i < j {
      SkipSpaceTo(s, i + 1, j);
    }
  }

  /** The start of the run of white space that ends at `j`. */
  function SkipSpaceBack(s: String, j: nat): (i: nat)
    requires j <= |s|
    ensures i <= j
    ensures forall k | i <= k < j :: IsSpace(s[k])
    ensures 0 < i ==> !IsSpace(s[i - 1])
    decreases j
  {
    if 0 < j && IsSpace(s[j - 1]) then SkipSpaceBack(s, j - 1) else j
  }

  /** The end of the run of characters that `.` matches, starting at `i` (greedy `.*`). */
  function RunEnd(s: String, i: nat): (j: nat)
    requires i <= |s|
    ensures i <= j <= |s|
    ensures forall k | i <= k < j :: !IsLineTerminator(s[k])
    ensures j < |s| ==> IsLineTerminator(s[j])
    decreases |s| - i
  {
    if i < |s| && !IsLineTerminator(s[i]) then RunEnd(s, i + 1) else i
  }

  /** `String.prototype.trim`. */
  function Trim(s: String): String {
    var i := SkipSpace(s, 0);
    var j := SkipSpaceBack(s, |s|);
    if i < j then s[i..j] else []
  }

  /** `trim` removes white space from both ends and nothing else. */
  lemma TrimShape(s: String)
    ensures var r := Trim(s);
      && (r == [] || (!IsSpace(r[0]) && !IsSpace(r[|r| - 1])))
      && exists i | 0 <= i <= |s| - |r| :: s[i..i + |r|] == r && AllSpace(s[..i]) && AllSpace(s[i + |r|..])
  {
    var i := SkipSpace(s, 0);
    var j := SkipSpaceBack(s, |s|);
    if i < j {
      assert s[i..j][0] == s[i] && s[i..j][j - i - 1] == s[j - 1];
      assert AllSpace(s[..i]) && AllSpace(s[j..]);
    } else {
      assert AllSpace(s);
      assert s[..|s|] == s && s[|s|..] == [];
    }
  }

  /** Trimming only removes characters: whatever the result holds, the text held. */
  lemma TrimWithin(s: String)
    ensures forall c | c in Trim(s) :: c in s
  {
    TrimShape(s);
  }

  predicate OccursAt(s: String, p: String, i: nat) {
    i + |p| <= |s| && s[i..i + |p|] == p
  }

  ghost predicate Contains(s: String, p: String) {
    exists i: nat :: OccursAt(s, p, i)
  }

  /** `s.indexOf(p, from)`: the leftmost occurrence of `p` at or after `from`. */
  function IndexOf(s: String, p: String, from: nat): (r: Option<nat>)
    requires from <= |s|
    ensures r.Some? ==> from <= r.value && OccursAt(s, p, r.value)
    ensures r.Some? ==> forall k: nat | from <= k < r.value :: !OccursAt(s, p, k)
    ensures r.None? ==> forall k: nat | from <= k :: !OccursAt(s, p, k)
    decreases |s| - from
  {
    if OccursAt(s, p, from) then Some(from)
    else if from == |s| then None
    else IndexOf(s, p, from + 1)
  }

  /**
   * GetSubstitution for a string pattern: in the replacement text `$$` stands
   * for `$`, `$&` for the matched text, `` $` `` for the text before the match
   * and `$'` for the text after it; every other character, `$` included, is
   * literal, since a string pattern has no capture groups.
   */
  function Expand(t: String, s: String, pos: nat, matched: String): (r: String)
    requires pos + |matched| <= |s|
    decreases |t|
  {
    if t == [] then []
    else if t[0] == '$' && |t| >= 2 && t[1] == '$' then "$" + Expand(t[2..], s, pos, matched)
    else if t[0] == '$' && |t| >= 2 && t[1] == '&' then matched + Expand(t[2..], s, pos, matched)
    else if t[0] == '$' && |t| >= 2 && t[1] == '`' then s[..pos] + Expand(t[2..], s, pos, matched)
    else if t[0] == '$' && |t| >= 2 && t[1] == '\'' then s[pos + |matched|..] + Expand(t[2..], s, pos, matched)
    else [t[0]] + Expand(t[1..], s, pos, matched)
  }

  /** A replacement text without `$` is inserted as it is. */
  lemma {:induction false} ExpandPlain(t: String, s: String, pos: nat, matched: String)
    requires pos + |matched| <= |s|
    requires '$' !in t
    ensures Expand(t, s, pos, matched) == t
    decreases |t|
  {
    if t != [] {
      assert '$' !in t[1..];
      ExpandPlain(t[1..], s, pos, matched);
    }
  }

  /** The occurrences of `p` in `s` from `from` on, leftmost first and not overlapping, each replaced. */
  function ReplaceAllFrom(s: String, p: String, t: String, from: nat): String
    requires 0 < |p| && from <= |s|
    decreases |s| - from
  {
    match IndexOf(s, p, from)
    case None => s[from..]
    case Some(j) => s[from..j] + Expand(t, s, j, p) + ReplaceAllFrom(s, p, t, j + |p|)
  }

  /** `s.replaceAll(p, t)` for a non-empty string pattern `p` and a string replacement `t`. */
  function ReplaceAll(s: String, p: String, t: String): String
    requires 0 < |p|
  {
    ReplaceAllFrom(s, p, t, 0)
  }

  /** The pieces of `s[from..]` between the occurrences of `sep`. */
  function SplitFrom(s: String, sep: String, from: nat): (r: seq<String>)
    requires 0 < |sep| && from <= |s|
    ensures 0 < |r|
    decreases |s| - from
  {
    match IndexOf(s, sep, from)
    case None => [s[from..]]
    case Some(j) => [s[from..j]] + SplitFrom(s, sep, j + |sep|)
  }

  /** `s.split(sep)` for a non-empty string separator. */
  function Split(s: String, sep: String): (r: seq<String>)
    requires 0 < |sep|
  {
    SplitFrom(s, sep, 0)
  }

  /** `parts.join(sep)`. */
  function Join(parts: seq<String>, sep: String): String {
    if parts == [] then []
    else if |parts| == 1 then parts[0]
    else parts[0] + sep + Join(parts[1..], sep)
  }

  lemma {:induction false} SplitFromJoin(s: String, sep: String, from: nat)
    requires 0 < |sep| && from <= |s|
    ensures Join(SplitFrom(s, sep, from), sep) == s[from..]
    decreases |s| - from
  {
    match IndexOf(s, sep, from)
    case None =>
    case Some(j) =>
      SplitFromJoin(s, sep, j + |sep|);
      var rest := SplitFrom(s, sep, j + |sep|);
      var r := [s[from..j]] + rest;
      assert SplitFrom(s, sep, from) == r;
      assert r[1..] == rest;
      assert Join(r, sep) == s[from..j] + sep + Join(rest, sep);
      assert s[j..j + |sep|] == sep;
      assert s[from..] == s[from..j] + s[j..j + |sep|] + s[j + |sep|..];
  }

  lemma {:induction false} SplitFromSeparated(s: String, sep: String, from: nat)
    requires 0 < |sep| && from <= |s|
    ensures forall k | 0 <= k < |SplitFrom(s, sep, from)| :: !Contains(SplitFrom(s, sep, from)[k], sep)
    decreases |s| - from
  {
    var r := SplitFrom(s, sep, from);
    match IndexOf(s, sep, from)
    case None =>
      NoOccurrenceInSuffix(s, sep, from, |s|);
      assert s[from..|s|] == s[from..];
    case Some(j) =>
      SplitFromSeparated(s, sep, j + |sep|);
      var rest := SplitFrom(s, sep, j + |sep|);
      assert r == [s[from..j]] + rest;
      NoOccurrenceInSuffix(s, sep, from, j);
      forall k | 0 <= k < |r| ensures !Contains(r[k], sep) {
        if k > 0 { assert r[k] == rest[k - 1]; }
      }
  }

  /** No occurrence starts in `s[from..to]` early enough to lie inside it, so that slice does not contain `p`. */
  lemma NoOccurrenceInSuffix(s: String, p: String, from: nat, to: nat)
    requires from <= to <= |s|
    requires forall k: nat | from <= k < to :: !OccursAt(s, p, k)
    requires 0 < |p|
    ensures !Contains(s[from..to], p)
  {
    OccursInSlice(s, p, from, to);
  }

  /** An occurrence inside the slice `s[from..to]` is an occurrence in `s`, shifted by `from`. */
  lemma OccursInSlice(s: String, p: String, from: nat, to: nat)
    requires from <= to <= |s|
    ensures forall i: nat | OccursAt(s[from..to], p, i) :: OccursAt(s, p, from + i)
  {
    forall i: nat | OccursAt(s[from..to], p, i) ensures OccursAt(s, p, from + i) {
      forall k | 0 <= k < |p| ensures s[from + i + k] == p[k] {
        assert s[from..to][i..i + |p|][k] == p[k];
      }
      assert s[from + i..from + i + |p|] == p;
    }
  }

  /**
   * `s.split(sep)` cuts `s` into pieces none of which contains `sep`, and
   * joining them with `sep` gives `s` back.
   */
  lemma SplitJoin(s: String, sep: String)
    requires 0 < |sep|
    ensures Join(Split(s, sep), sep) == s
    ensures forall k | 0 <= k < |Split(s, sep)| :: !Contains(Split(s, sep)[k], sep)
  {
    SplitFromJoin(s, sep, 0);
    SplitFromSeparated(s, sep, 0);
  }

  lemma {:induction false} ReplaceAllFromPlain(s: String, p: String, t: String, from: nat)
    requires 0 < |p| && from <= |s| && '$' !in t
    ensures ReplaceAllFrom(s, p, t, from) == Join(SplitFrom(s, p, from), t)
    decreases |s| - from
  {
    match IndexOf(s, p, from)
    case None =>
    case Some(j) =>
      ExpandPlain(t, s, j, p);
      ReplaceAllFromPlain(s, p, t, j + |p|);
      var rest := SplitFrom(s, p, j + |p|);
      assert SplitFrom(s, p, from) == [s[from..j]] + rest;
  }

  /**
   * With a replacement text free of `$`, `replaceAll` is `split` followed by
   * `join`: every occurrence of the pattern, leftmost first, becomes the
   * replacement and the text between occurrences is kept.
   */
  lemma ReplaceAllIsSplitJoin(s: String, p: String, t: String)
    requires 0 < |p| && '$' !in t
    ensures ReplaceAll(s, p, t) == Join(Split(s, p), t)
  {
    ReplaceAllFromPlain(s, p, t, 0);
  }

  /** Replacing a pattern free of `$` by itself changes nothing. */
  lemma ReplaceAllSelf(s: String, p: String)
    requires 0 < |p| && '$' !in p
    ensures ReplaceAll(s, p, p) == s
  {
    ReplaceAllIsSplitJoin(s, p, p);
    SplitJoin(s, p);
  }

  /** A text that does not contain the pattern is returned unchanged, whatever the replacement. */
  lemma ReplaceAllAbsent(s: String, p: String, t: String)
    requires 0 < |p| && !Contains(s, p)
    ensures ReplaceAll(s, p, t) == s
  {
  }
}
