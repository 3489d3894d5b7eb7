/** The release helper `update.py`: read the crate version from the first `version = "..."` line
    of the manifest, increment its patch component, and rewrite every such line. The manifest is
    a sequence of lines; the regular expression `^version\s*=\s*"(.*?)"` is matched by hand. */
module VersionBump {
  import opened Results
  import opened Text

  // =======================================================================================
  // The pattern `^version\s*=\s*"(.*?)"`
  // =======================================================================================

  /** A match: the captured text between the quotes, and the position just past the closing
      quote. */
  datatype VersionMatch = VersionMatch(group: string, end: nat)

  /** `\s*` from position `i`: the first position at or after `i` that is not whitespace. */
  function SkipSpace(s: string, i: nat): (j: nat)
    requires i <= |s|
    ensures i <= j <= |s|
    ensures j < |s| ==> !IsSpace(s[j])
    ensures forall k :: i <= k < j ==> IsSpace(s[k])
    decreases |s| - i
  {
    if i < |s| && IsSpace(s[i]) then SkipSpace(s, i + 1) else i
  }

  /** `(.*?)"` from position `i`: the first `"` at or after `i`, unless a newline, which `.`
      does not cross, comes first or there is none. */
  function QuoteEnd(s: string, i: nat): (r: Option<nat>)
    requires i <= |s|
    ensures r.Some? ==> i <= r.value < |s| && s[r.value] == '"'
    ensures r.Some? ==> forall k :: i <= k < r.value ==> s[k] != '"' && s[k] != '\n'
    decreases |s| - i
  {
    if i == |s| || s[i] == '\n' then None
    else if s[i] == '"' then Some(i)
    else QuoteEnd(s, i + 1)
  }

  /** Every character of `s[i..j]` is whitespace. */
  predicate Spaces(s: string, i: nat, j: int)
  {
    forall m :: i <= m < j && m < |s| ==> IsSpace(s[m])
  }

  /** Where the opening quote of a match stands: the group and two quotes end at `end`. */
  function OpenQuote(m: VersionMatch): int
  {
    m.end - |m.group| - 2
  }

  /** `m` is a quoted group of `line`: an opening quote, the group, which holds no quote and no
      line break, and the closing quote just before `end`. */
  predicate QuotedAt(line: string, m: VersionMatch)
  {
    0 <= OpenQuote(m) && m.end <= |line| && line[OpenQuote(m)] == '"' && line[m.end - 1] == '"'
    && m.group == line[OpenQuote(m) + 1..m.end - 1] && '"' !in m.group && '\n' !in m.group
  }

  /** The shape of a match of the whole pattern: `version` at the start, a whitespace run, `=`
      at some position `e`, a whitespace run and the quoted group. */
  predicate VersionShape(line: string, m: VersionMatch)
  {
    |line| >= 7 && line[..7] == "version" && QuotedAt(line, m)
    && exists e :: 7 <= e < OpenQuote(m) && line[e] == '=' && Spaces(line, 7, e) && Spaces(line, e + 1, OpenQuote(m))
  }

  /** `re.search(r'^version\s*=\s*"(.*?)"', line)`: anchored at the start of the line. A match is
      `version`, a whitespace run, `=` at some position `e`, a whitespace run and the quoted
      group. */
  function MatchVersion(line: string): (r: Option<VersionMatch>)
    ensures r.Some? ==> VersionShape(line, r.value)
  {
    if |line| < 7 || line[..7] != "version" then None
    else
      var e := SkipSpace(line, 7);
      var r := MatchAssign(line, e);
      assert r.Some? ==> 7 <= e < OpenQuote(r.value) && line[e] == '=';
      r
  }

  /** The rest of the pattern from `=`, at position `j`: `=` there, a whitespace run, and the
      quoted group. */
  function MatchAssign(line: string, j: nat): (r: Option<VersionMatch>)
    requires j <= |line|
    ensures r.Some? ==> QuotedAt(line, r.value) && j < OpenQuote(r.value) && line[j] == '='
    ensures r.Some? ==> Spaces(line, j + 1, OpenQuote(r.value))
  {
    if j == |line| || line[j] != '=' then None
    else MatchQuote(line, SkipSpace(line, j + 1))
  }

  /** The rest of the pattern from the opening quote, at position `k`: the quoted group opens
      there. */
  function MatchQuote(line: string, k: nat): (r: Option<VersionMatch>)
    requires k <= |line|
    ensures r.Some? ==> OpenQuote(r.value) == k && QuotedAt(line, r.value)
  {
    if k == |line| || line[k] != '"' then None
    else
      match QuoteEnd(line, k + 1)
      case None => None
      case Some(q) =>
        var g := line[k + 1..q];
        assert forall m :: 0 <= m < |g| ==> g[m] == line[k + 1 + m];
        Some(VersionMatch(g, q + 1))
  }

  /** Conversely, an opening quote followed by a closing one with no quote or line break between
      is a match of the part from the quote, with the text between as the group. */
  lemma MatchQuoteAt(line: string, k: nat, q: nat)
    requires k < q < |line| && line[k] == '"' && line[q] == '"'
    requires forall m :: k < m < q ==> line[m] != '"' && line[m] != '\n'
    ensures MatchQuote(line, k) == Some(VersionMatch(line[k + 1..q], q + 1))
  {
    QuoteEndAt(line, k + 1, q);
  }

  /** Conversely, a line holding `version` at its start, a whitespace run, `=` at `e`, a
      whitespace run, and quotes at `k` and `q` with no quote or line break between matches, with
      the text between the quotes as the group. */
  lemma MatchVersionAt(line: string, e: nat, k: nat, q: nat)
    requires 7 <= e < k < q < |line| && line[..7] == "version"
    requires line[e] == '=' && line[k] == '"' && line[q] == '"'
    requires Spaces(line, 7, e) && Spaces(line, e + 1, k)
    requires forall m :: k < m < q ==> line[m] != '"' && line[m] != '\n'
    ensures MatchVersion(line) == Some(VersionMatch(line[k + 1..q], q + 1))
  {
    SkipSpaceTo(line, 7, e);
    SkipSpaceTo(line, e + 1, k);
    MatchQuoteAt(line, k, q);
  }

  /** The same for a line written out as `version`, whitespace `w1`, `=`, whitespace `w2` and a
      quoted group `g`, whatever follows. */
  lemma MatchVersionSpaced(w1: string, w2: string, g: string, rest: string)
    requires Spaces(w1, 0, |w1|) && Spaces(w2, 0, |w2|)
    requires '"' !in g && '\n' !in g
    ensures MatchVersion("version" + w1 + "=" + w2 + "\"" + g + "\"" + rest)
      == Some(VersionMatch(g, 10 + |w1| + |w2| + |g|))
  {
    var head := "version" + w1;
    var eq := head + "=" + w2;
    var open := eq + "\"" + g;
    var line := open + "\"" + rest;
    var e := 7 + |w1|;
    var k := e + 1 + |w2|;
    var q := k + 1 + |g|;
    assert line[..7] == head[..7] == "version";
    assert line[e] == '=' && line[k] == '"' && line[q] == '"';
    assert line[k + 1..q] == g;
    forall m | 7 <= m < e ensures IsSpace(line[m]) { assert line[m] == head[m] == w1[m - 7]; }
    forall m | e < m < k ensures IsSpace(line[m]) { assert line[m] == eq[m] == w2[m - e - 1]; }
    forall m | k < m < q ensures line[m] != '"' && line[m] != '\n' { assert line[m] == open[m] == g[m - k - 1]; }
    MatchVersionAt(line, e, k, q);
  }

  /** `\s*` stops at the first position that is not whitespace. */
  lemma {:induction false} SkipSpaceTo(s: string, i: nat, j: nat)
    requires i <= j < |s| && !IsSpace(s[j])
    requires forall m :: i <= m < j ==> IsSpace(s[m])
    ensures SkipSpace(s, i) == j
    decreases j - i
  {
    if i < j {
      SkipSpaceTo(s, i + 1, j);
    }
  }

  /** The text `re.sub` puts in place of a match: `version = "<v>"`. */
  function VersionLine(v: string): string
  {
    "version = \"" + v + "\""
  }

  /** The rendered line reads back as its version, whatever follows it. */
  lemma MatchVersionLine(v: string, rest: string)
    requires '"' !in v && '\n' !in v
    ensures MatchVersion(VersionLine(v) + rest) == Some(VersionMatch(v, |v| + 12))
  {
    var s := VersionLine(v) + rest;
    var q := |v| + 11;
    assert s[..7] == "version";
    assert s[7] == ' ' && s[8] == '=' && s[9] == ' ' && s[10] == '"' && s[q] == '"';
    assert s[11..q] == v;
    forall m | 10 < m < q ensures s[m] != '"' && s[m] != '\n' { assert s[m] == v[m - 11]; }
    MatchVersionAt(s, 8, 10, q);
  }

  /** The closing quote is found where the first `"` stands when no newline precedes it. */
  lemma {:induction false} QuoteEndAt(s: string, i: nat, q: nat)
    requires i <= q < |s| && s[q] == '"'
    requires forall k :: i <= k < q ==> s[k] != '"' && s[k] != '\n'
    ensures QuoteEnd(s, i) == Some(q)
    decreases q - i
  {
    if i < q {
      QuoteEndAt(s, i + 1, q);
    }
  }

  /** Trailing whitespace never decides a match: a line matches exactly as its right-stripped
      form does. */
  lemma MatchIgnoresTrailingSpace(line: string)
    ensures MatchVersion(RStrip(line)) == MatchVersion(line)
  {
    var t := RStrip(line);
    var w := line[|t|..];
    assert line == t + w;
    MatchExtend(t, w);
  }

  /** Appending whitespace to a line that does not end in whitespace leaves its match alone. */
  lemma MatchExtend(t: string, w: string)
    requires t == [] || !IsSpace(t[|t| - 1])
    requires forall k :: 0 <= k < |w| ==> IsSpace(w[k])
    ensures MatchVersion(t + w) == MatchVersion(t)
  {
    var s := t + w;
    if |t| < 7 || t[..7] != "version" {
      if |t| >= 7 {
        assert s[..7] == t[..7];
      } else if |s| >= 7 {
        assert s[|t|] == w[0];
        assert IsSpace(s[..7][|t|]);
      }
    } else {
      assert s[..7] == t[..7];
      SkipSpaceExtend(t, w, 7);
      if SkipSpace(t, 7) < |t| {
        MatchAssignExtend(t, w, SkipSpace(t, 7));
      }
    }
  }

  /** The same for the part of the pattern from `=`. */
  lemma MatchAssignExtend(t: string, w: string, j: nat)
    requires j < |t| && !IsSpace(t[|t| - 1])
    requires forall k :: 0 <= k < |w| ==> IsSpace(w[k])
    ensures MatchAssign(t + w, j) == MatchAssign(t, j)
  {
    var s := t + w;
    assert s[j] == t[j];
    if t[j] == '=' {
      SkipSpaceExtend(t, w, j + 1);
      if SkipSpace(t, j + 1) < |t| {
        MatchQuoteExtend(t, w, SkipSpace(t, j + 1));
      }
    }
  }

  /** The same for the part of the pattern from the opening quote. */
  lemma MatchQuoteExtend(t: string, w: string, k: nat)
    requires k < |t|
    requires forall i :: 0 <= i < |w| ==> IsSpace(w[i])
    ensures MatchQuote(t + w, k) == MatchQuote(t, k)
  {
    var s := t + w;
    assert s[k] == t[k];
    if t[k] == '"' {
      QuoteEndExtend(t, w, k + 1);
      match QuoteEnd(t, k + 1)
      case None =>
      case Some(q) =>
        assert s[k + 1..q] == t[k + 1..q];
    }
  }

  /** `\s*` ends inside `t` at the same place in `t + w`, and at the end of `t + w` otherwise. */
  lemma {:induction false} SkipSpaceExtend(t: string, w: string, i: nat)
    requires i <= |t|
    requires t == [] || !IsSpace(t[|t| - 1])
    requires forall k :: 0 <= k < |w| ==> IsSpace(w[k])
    ensures SkipSpace(t, i) < |t| ==> SkipSpace(t + w, i) == SkipSpace(t, i)
    ensures SkipSpace(t, i) == |t| ==> SkipSpace(t + w, i) == |t + w|
    decreases |t| - i
  {
    var s := t + w;
    if i < |t| {
      assert s[i] == t[i];
      if IsSpace(t[i]) {
        SkipSpaceExtend(t, w, i + 1);
      }
    } else {
      SkipSpaceTail(s, |t|);
    }
  }

  /** From a position after which all is whitespace, `\s*` runs to the end. */
  lemma {:induction false} SkipSpaceTail(s: string, i: nat)
    requires i <= |s|
    requires forall k :: i <= k < |s| ==> IsSpace(s[k])
    ensures SkipSpace(s, i) == |s|
    decreases |s| - i
  {
    if i < |s| {
      SkipSpaceTail(s, i + 1);
    }
  }

  /** Whitespace appended after the end cannot supply the closing quote. */
  lemma {:induction false} QuoteEndExtend(t: string, w: string, i: nat)
    requires i <= |t|
    requires forall k :: 0 <= k < |w| ==> IsSpace(w[k])
    ensures QuoteEnd(t + w, i) == QuoteEnd(t, i)
    decreases |t| - i
  {
    var s := t + w;
    if i < |t| {
      assert s[i] == t[i];
      QuoteEndExtend(t, w, i + 1);
    } else {
      QuoteEndSpaces(s, i);
    }
  }

  /** Over whitespace alone there is no closing quote. */
  lemma {:induction false} QuoteEndSpaces(s: string, i: nat)
    requires i <= |s|
    requires forall k :: i <= k < |s| ==> IsSpace(s[k])
    ensures QuoteEnd(s, i) == None
    decreases |s| - i
  {
    if i < |s| {
      assert IsSpace(s[i]);
      QuoteEndSpaces(s, i + 1);
    }
  }

  // =======================================================================================
  // Reading the current version: the first matching line
  // =======================================================================================

  /** The version captured on the first matching line, or `""` when no line matches. */
  function FirstVersion(lines: seq<string>): string
    decreases |lines|
  {
    if lines == [] then ""
    else
      match MatchVersion(lines[0])
      case Some(m) => m.group
      case None => FirstVersion(lines[1..])
  }

  /** The reading loop: stop at the first line that matches. */
  method CurrentVersion(lines: seq<string>) returns (currentVersion: string)
    ensures currentVersion == FirstVersion(lines)
  {
    currentVersion := "";
    for i := 0 to |lines|
      invariant FirstVersion(lines) == FirstVersion(lines[i..])
      invariant currentVersion == ""
    {
      assert lines[i..][1..] == lines[i + 1..];
      var m := MatchVersion(lines[i]);
      if m.Some? {
        currentVersion := m.value.group;
        return;
      }
    }
  }

  /** The version read is the capture of the first matching line. */
  lemma {:induction false} FirstVersionAt(lines: seq<string>, i: nat)
    requires i < |lines| && MatchVersion(lines[i]).Some?
    requires forall j :: 0 <= j < i ==> MatchVersion(lines[j]).None?
    ensures FirstVersion(lines) == MatchVersion(lines[i]).value.group
    decreases i
  {
    if i > 0 {
      FirstVersionAt(lines[1..], i - 1);
    }
  }

  /** With no matching line the version stays empty. */
  lemma {:induction false} FirstVersionNone(lines: seq<string>)
    requires forall j :: 0 <= j < |lines| ==> MatchVersion(lines[j]).None?
    ensures FirstVersion(lines) == ""
    decreases |lines|
  {
    if lines != [] {
      FirstVersionNone(lines[1..]);
    }
  }

  /** Dropping the first line of `a + b` drops the first line of `a`. */
  lemma DropFirstOfConcat(a: seq<string>, b: seq<string>)
    requires a != []
    ensures (a + b)[1..] == a[1..] + b
  {
  }

  /** Once a line has matched, the lines after it are not consulted. */
  lemma {:induction false} FirstVersionIgnoresLater(a: seq<string>, b: seq<string>)
    requires exists i :: 0 <= i < |a| && MatchVersion(a[i]).Some?
    ensures FirstVersion(a + b) == FirstVersion(a)
    decreases |a|
  {
    if MatchVersion(a[0]).None? {
      var i :| 0 <= i < |a| && MatchVersion(a[i]).Some?;
      assert i != 0;
      var t := a[1..];
      DropFirstOfConcat(a, b);
      assert t[i - 1] == a[i];
      FirstVersionIgnoresLater(t, b);
    }
  }

  // =======================================================================================
  // The new version: `int(parts[2]) + 1`
  // =======================================================================================

  /** The digits of a Python integer literal, with single underscores allowed between digits,
      and their value. */
  function UnderscoredDigits(b: string): Option<nat>
    decreases |b|
  {
    if b == [] || !IsDigit(b[|b| - 1]) then None
    else if |b| == 1 then Some(DigitValue(b[0]))
    else
      var init := b[..|b| - 1];
      var head := if init[|init| - 1] == '_' then init[..|init| - 1] else init;
      match UnderscoredDigits(head)
      case None => None
      case Some(v) => Some(v * 10 + DigitValue(b[|b| - 1]))
  }

  /** Python `s.lstrip()`. */
  function LStrip(s: string): (r: string)
    ensures |r| <= |s| && r == s[|s| - |r|..]
    ensures r == [] || !IsSpace(r[0])
    decreases |s|
  {
    if s != [] && IsSpace(s[0]) then LStrip(s[1..]) else s
  }

  /** Python `int(s)` on a `str`: surrounding whitespace, an optional sign, then decimal digits
      with optional single underscores between them; anything else raises `ValueError`. */
  function PyInt(s: string): Option<int>
  {
    var t := RStrip(LStrip(s));
    if t == [] then None
    else
      var neg := t[0] == '-';
      var body := if t[0] == '-' || t[0] == '+' then t[1..] else t;
      match UnderscoredDigits(body)
      case None => None
      case Some(v) => Some(if neg then -(v as int) else v as int)
  }

  /** The new version, or `None` where the script fails: fewer than three dot-separated parts
      (`IndexError`) or a patch part `int` rejects (`ValueError`). */
  function NewVersion(current: string): (r: Option<string>)
    ensures r.Some? <==> |Split(current, '.')| >= 3 && PyInt(Split(current, '.')[2]).Some?
  {
    var versionParts := Split(current, '.');
    if |versionParts| < 3 then None
    else
      match PyInt(versionParts[2])
      case None => None
      case Some(p) => Some(versionParts[0] + "." + versionParts[1] + "." + IntToString(p + 1))
  }

  /** A printed number reads back through `int`. */
  lemma PyIntOfNat(n: nat)
    ensures PyInt(NatToString(n)) == Some(n)
  {
    var s := NatToString(n);
    NatToStringDigits(n);
    DigitNotSpace(s[0]);
    DigitNotSpace(s[|s| - 1]);
    assert LStrip(s) == s;
    assert RStrip(s) == s;
    UnderscoredDigitsPlain(s);
  }

  /** A digit is not whitespace, nor a dot, quote or newline. */
  lemma DigitNotSpace(c: char)
    requires IsDigit(c)
    ensures !IsSpace(c) && c != '.' && c != '"' && c != '\n'
  {
  }

  /** A printed number holds no dot, quote or newline. */
  lemma NatToStringPlain(n: nat)
    ensures '.' !in NatToString(n) && '"' !in NatToString(n) && '\n' !in NatToString(n)
  {
    var p := NatToString(n);
    NatToStringDigits(n);
    forall k | 0 <= k < |p| ensures p[k] != '.' && p[k] != '"' && p[k] != '\n' {
      DigitNotSpace(p[k]);
    }
  }

  /** Plain digits are accepted with their decimal value. */
  lemma {:induction false} UnderscoredDigitsPlain(s: string)
    requires |s| > 0 && AllDigits(s)
    ensures UnderscoredDigits(s) == Some(DigitsValue(s))
    decreases |s|
  {
    if |s| > 1 {
      var init := s[..|s| - 1];
      assert init[|init| - 1] == s[|s| - 2];
      UnderscoredDigitsPlain(init);
      assert init[..|init| - 1] == s[..|s| - 2];
      assert DigitsValue(s[..1]) == DigitValue(s[0]) by {
        assert s[..1][..0] == [];
      }
    } else {
      assert s[..0] == [];
    }
  }

  /** The patch goes up by one, major and minor are kept, and parts after the third are
      dropped. */
  lemma NewVersionBumpsPatch(major: string, minor: string, patch: nat, tail: string)
    requires '.' !in major && '.' !in minor
    requires tail == "" || tail[0] == '.'
    ensures NewVersion(major + "." + minor + "." + NatToString(patch) + tail)
         == Some(major + "." + minor + "." + NatToString(patch + 1))
  {
    NatToStringPlain(patch);
    SplitThree(major, minor, NatToString(patch), tail);
    PyIntOfNat(patch);
  }

  /** The first three dot-separated parts of `a.b.c<tail>`. */
  lemma SplitThree(a: string, b: string, c: string, tail: string)
    requires '.' !in a && '.' !in b && '.' !in c
    requires tail == "" || tail[0] == '.'
    ensures var parts := Split(a + "." + b + "." + c + tail, '.');
            |parts| >= 3 && parts[0] == a && parts[1] == b && parts[2] == c
  {
    DotRegroup(a, b, c, tail);
    SplitAtFirst(a, '.', b + ['.'] + (c + tail));
    SplitAtFirst(b, '.', c + tail);
    if tail == "" {
      assert c + tail == c;
    } else {
      assert c + tail == c + ['.'] + tail[1..];
      SplitAtFirst(c, '.', tail[1..]);
    }
  }

  /** `a.b.c<tail>` regrouped around its first two dots. */
  lemma DotRegroup(a: string, b: string, c: string, tail: string)
    ensures a + "." + b + "." + c + tail == a + ['.'] + (b + ['.'] + (c + tail))
  {
  }

  /** Without a version line the current version is empty and the script fails. */
  lemma NoVersionFails(lines: seq<string>)
    requires forall j :: 0 <= j < |lines| ==> MatchVersion(lines[j]).None?
    ensures NewVersion(FirstVersion(lines)) == None
  {
    FirstVersionNone(lines);
    assert Split("", '.') == [""];
  }

  /** A new version built from a captured version contains neither a quote nor a newline. */
  lemma NewVersionPlain(current: string)
    requires '"' !in current && '\n' !in current && NewVersion(current).Some?
    ensures '"' !in NewVersion(current).value && '\n' !in NewVersion(current).value
  {
    var parts := Split(current, '.');
    var p := PyInt(parts[2]).value + 1;
    var t := IntToString(p);
    assert NewVersion(current).value == parts[0] + "." + parts[1] + "." + t;
    assert '"' !in parts[0] && '\n' !in parts[0] by {
      PartsPlain(current, 0);
    }
    assert '"' !in parts[1] && '\n' !in parts[1] by {
      PartsPlain(current, 1);
    }
    assert '"' !in t && '\n' !in t by {
      NatToStringPlain(if p < 0 then -p else p);
    }
  }

  /** A piece of a split string holds only characters of the string. */
  lemma PartsPlain(s: string, k: nat)
    requires k < |Split(s, '.')| && '"' !in s && '\n' !in s
    ensures '"' !in Split(s, '.')[k] && '\n' !in Split(s, '.')[k]
  {
    JoinSplit(s, '.');
    JoinHolds(Split(s, '.'), '.', k);
  }

  /** Every piece occurs inside the joined string. */
  lemma {:induction false} JoinHolds(parts: seq<string>, c: char, k: nat)
    requires k < |parts|
    ensures forall x :: x in parts[k] ==> x in Join(parts, c)
    decreases |parts|
  {
    if |parts| > 1 {
      var j := Join(parts, c);
      assert j == parts[0] + [c] + Join(parts[1..], c);
      if k > 0 {
        JoinHolds(parts[1..], c, k - 1);
      }
    }
  }

  // =======================================================================================
  // Rewriting the manifest
  // =======================================================================================

  /** One line of the rewrite: right-stripped, then a leading `version = "..."` replaced by the
      new version; `print` then ends it with a newline. */
  function RewriteLine(line: string, newVersion: string): string
  {
    var t := RStrip(line);
    match MatchVersion(t)
    case None => t
    case Some(m) => VersionLine(newVersion) + t[m.end..]
  }

  /** The rewrite loop over every line of the manifest. */
  method RewriteLines(lines: seq<string>, newVersion: string) returns (out: seq<string>)
    ensures |out| == |lines|
    ensures forall i :: 0 <= i < |lines| ==> out[i] == RewriteLine(lines[i], newVersion)
  {
    out := [];
    for i := 0 to |lines|
      invariant |out| == i
      invariant forall k :: 0 <= k < i ==> out[k] == RewriteLine(lines[k], newVersion)
    {
      var line := RewriteLine(lines[i], newVersion);
      out := out + [line];
    }
  }

  /** A line without a version assignment only loses its trailing whitespace. */
  lemma OtherLinesStripped(line: string, newVersion: string)
    requires MatchVersion(line).None?
    ensures RewriteLine(line, newVersion) == RStrip(line)
  {
    MatchIgnoresTrailingSpace(line);
  }

  /** A version assignment is rewritten to the new version, keeping what follows the closing
      quote, and reads back as the new version. */
  lemma VersionLinesRewritten(line: string, newVersion: string)
    requires MatchVersion(line).Some? && '"' !in newVersion && '\n' !in newVersion
    ensures var m := MatchVersion(line).value;
            RewriteLine(line, newVersion) == VersionLine(newVersion) + RStrip(line)[m.end..]
    ensures MatchVersion(RewriteLine(line, newVersion)) == Some(VersionMatch(newVersion, |newVersion| + 12))
  {
    MatchIgnoresTrailingSpace(line);
    var m := MatchVersion(line).value;
    MatchVersionLine(newVersion, RStrip(line)[m.end..]);
  }

  /** `update.py` on a manifest: `None` where the script fails, otherwise the printed lines. */
  method UpdateVersion(lines: seq<string>) returns (r: Option<seq<string>>)
    ensures r.None? <==> NewVersion(FirstVersion(lines)).None?
    ensures r.Some? ==> |r.value| == |lines|
    ensures r.Some? ==> forall i :: 0 <= i < |lines| ==>
      r.value[i] == RewriteLine(lines[i], NewVersion(FirstVersion(lines)).value)
  {
    var currentVersion := CurrentVersion(lines);
    var newVersion := NewVersion(currentVersion);
    if newVersion.None? {
      return None;
    }
    var out := RewriteLines(lines, newVersion.value);
    return Some(out);
  }

  /** Reading the rewritten manifest gives the new version. */
  lemma UpdateReadsBack(lines: seq<string>)
    requires NewVersion(FirstVersion(lines)).Some?
    ensures var nv := NewVersion(FirstVersion(lines)).value;
            FirstVersion(seq(|lines|, i requires 0 <= i < |lines| => RewriteLine(lines[i], nv))) == nv
  {
    var nv := NewVersion(FirstVersion(lines)).value;
    var out := seq(|lines|, i requires 0 <= i < |lines| => RewriteLine(lines[i], nv));
    if forall j :: 0 <= j < |lines| ==> MatchVersion(lines[j]).None? {
      NoVersionFails(lines);
      assert false;
    }
    var i := FirstWhere(lines, l => MatchVersion(l).Some?);
    FirstVersionAt(lines, i);
    var g := MatchVersion(lines[i]).value.group;
    NewVersionPlain(g);
    VersionLinesRewritten(lines[i], nv);
    forall j | 0 <= j < i ensures MatchVersion(out[j]).None? {
      OtherLinesStripped(lines[j], nv);
      MatchIgnoresTrailingSpace(lines[j]);
    }
    FirstVersionAt(out, i);
  }

  /** The position of the first element that satisfies `p`, when there is one. */
  lemma {:induction false} FirstWhere<T>(xs: seq<T>, p: T -> bool) returns (i: nat)
    requires exists j :: 0 <= j < |xs| && p(xs[j])
    ensures i < |xs| && p(xs[i])
    ensures forall j :: 0 <= j < i ==> !p(xs[j])
    decreases |xs|
  {
    if p(xs[0]) {
      i := 0;
    } else {
      var j :| 0 <= j < |xs| && p(xs[j]);
      var rest := xs[1..];
      assert rest[j - 1] == xs[j];
      var i' := FirstWhere(rest, p);
      i := i' + 1;
      assert xs[i] == rest[i'];
      forall j' | 0 <= j' < i ensures !p(xs[j']) {
        if j' > 0 {
          assert xs[j'] == rest[j' - 1];
        }
      }
    }
  }
}
