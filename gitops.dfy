/** The hunk-attribution engine of `devprofiler/src/utils/gitops.rs`: the numstat filter, the
    hunk-header extractor, the blame-line parser and the collapser, with every `git` invocation
    replaced by its standard output, passed in as a string. */
module GitOps {
  import opened Results
  import opened Text
  import opened Seqs

  // =======================================================================================
  // Change-set filter: `git diff --numstat` output
  // =======================================================================================

  /** One numstat row. The counts are `i32` in the source. */
  datatype StatItem = StatItem(filepath: string, additions: int, deletions: int)

  /** Files with more changed lines than this are excluded from attribution. */
  const LineThreshold: int := 500

  /** `field.parse::<i32>()`, with a parse failure (a binary file's `-`, say) degraded to 0. */
  function CountOrZero(field: string): (n: int)
    ensures I32Min <= n <= I32Max
    ensures ParseI32(field).None? ==> n == 0
  {
    match ParseI32(field)
    case Some(v) => v
    case None => 0
  }

  /** A line takes part when it has at least three tab-separated fields. */
  predicate HasStatFields(line: string)
  {
    |Split(line, '\t')| >= 3
  }

  /** The row a numstat line becomes. Both counts are read from field 0, as the source does. */
  function StatLine(line: string): StatItem
    requires HasStatFields(line)
  {
    var fields := Split(line, '\t');
    StatItem(fields[2], CountOrZero(fields[0]), CountOrZero(fields[0]))
  }

  /** The rows of all lines that have at least three fields, in input order. */
  function StatItems(lines: seq<string>): seq<StatItem>
    decreases |lines|
  {
    if lines == [] then []
    else
      var init := StatItems(lines[..|lines| - 1]);
      var last := lines[|lines| - 1];
      if HasStatFields(last) then init + [StatLine(last)] else init
  }

  /** `process_statitem`: split the output into lines and keep a row per well-formed line. */
  method ProcessStatItem(statstr: string) returns (statvec: seq<StatItem>)
    ensures statvec == StatItems(Split(statstr, '\n'))
  {
    var statlines := Split(statstr, '\n');
    statvec := [];
    for i := 0 to |statlines|
      invariant statvec == StatItems(statlines[..i])
    {
      assert statlines[..i + 1][..i] == statlines[..i];
      var statitems := Split(statlines[i], '\t');
      if |statitems| >= 3 {
        var statitem := StatItem(statitems[2], CountOrZero(statitems[0]), CountOrZero(statitems[0]));
        statvec := statvec + [statitem];
      }
    }
    assert statlines[..|statlines|] == statlines;
  }

  /** The rows are exactly the lines with at least three fields, in their order, each with its
      third field as the path. */
  lemma {:induction false} StatItemsAreKeptLines(lines: seq<string>)
    ensures |StatItems(lines)| == |Filter(HasStatFields, lines)|
    ensures forall k :: 0 <= k < |StatItems(lines)| ==>
      StatItems(lines)[k] == StatLine(Filter(HasStatFields, lines)[k])
      && StatItems(lines)[k].filepath == Split(Filter(HasStatFields, lines)[k], '\t')[2]
    decreases |lines|
  {
    if lines != [] {
      StatItemsAreKeptLines(lines[..|lines| - 1]);
    }
  }

  /** Because deletions are read from the additions column, every row has equal counts. */
  lemma {:induction false} DeletionsMirrorAdditions(lines: seq<string>)
    ensures forall it :: it in StatItems(lines) ==> it.deletions == it.additions
    decreases |lines|
  {
    if lines != [] {
      DeletionsMirrorAdditions(lines[..|lines| - 1]);
    }
  }

  /** A binary file's `-\t-\tpath` row gets zero counts instead of failing. */
  lemma BinaryRowCountsZero(path: string)
    requires '\t' !in path
    ensures HasStatFields("-\t-\t" + path)
    ensures StatLine("-\t-\t" + path) == StatItem(path, 0, 0)
  {
    assert Split("-\t-\t" + path, '\t') == ["-", "-"] + Split(path, '\t') by {
      TabFields("-", "-", path);
      assert "-\t-\t" + path == "-" + "\t" + "-" + "\t" + path;
    }
    assert CountOrZero("-") == 0;
  }

  /** A file is big when either count, or their sum, is over the threshold. */
  predicate IsBig(item: StatItem)
  {
    item.additions > LineThreshold || item.deletions > LineThreshold
    || item.additions + item.deletions > LineThreshold
  }

  /** The partition loop of `process_statoutput`. */
  method PartitionBySize(statvec: seq<StatItem>) returns (bigfiles: seq<StatItem>, smallfiles: seq<StatItem>)
    ensures bigfiles == Filter(IsBig, statvec) && smallfiles == FilterOut(IsBig, statvec)
  {
    bigfiles, smallfiles := [], [];
    for i := 0 to |statvec|
      invariant bigfiles == Filter(IsBig, statvec[..i])
      invariant smallfiles == FilterOut(IsBig, statvec[..i])
    {
      assert statvec[..i + 1][..i] == statvec[..i];
      var item := statvec[i];
      if item.additions > LineThreshold || item.deletions > LineThreshold
        || item.additions + item.deletions > LineThreshold {
        bigfiles := bigfiles + [item];
      } else {
        smallfiles := smallfiles + [item];
      }
    }
    assert statvec[..|statvec|] == statvec;
  }

  /** The big/small split of some rows. */
  function SizeSplit(items: seq<StatItem>): (seq<StatItem>, seq<StatItem>)
  {
    (Filter(IsBig, items), FilterOut(IsBig, items))
  }

  /** `process_statoutput`: parse, then split; it never reports failure. */
  method ProcessStatOutput(statstr: string) returns (r: Option<(seq<StatItem>, seq<StatItem>)>)
    ensures r.Some?
    ensures r.value == SizeSplit(StatItems(Split(statstr, '\n')))
  {
    var statvec := ProcessStatItem(statstr);
    var bigfiles, smallfiles := PartitionBySize(statvec);
    return Some((bigfiles, smallfiles));
  }

  /** `get_excluded_files`: the numstat output, or `None` when `git` could not be run or its
      output was not UTF-8; in that case there is nothing to split. */
  method GetExcludedFiles(statOut: Option<string>) returns (r: Option<(seq<StatItem>, seq<StatItem>)>)
    ensures r.Some? <==> statOut.Some?
    ensures statOut.Some? ==> r.value == SizeSplit(StatItems(Split(statOut.value, '\n')))
  {
    match statOut {
      case None => return None;
      case Some(statstr) => r := ProcessStatOutput(statstr);
    }
  }

  /** Every row lands in exactly one half, each half keeps the input order, and a row is in the
      big half exactly when it is over the threshold. */
  lemma SizePartition(items: seq<StatItem>)
    ensures multiset(SizeSplit(items).0) + multiset(SizeSplit(items).1) == multiset(items)
    ensures IsSubseq(SizeSplit(items).0, items) && IsSubseq(SizeSplit(items).1, items)
    ensures forall it :: it in SizeSplit(items).0 ==> IsBig(it)
    ensures forall it :: it in SizeSplit(items).1 ==> !IsBig(it)
  {
    FilterPartition(IsBig, items);
    FilterKeepsOrder(IsBig, items);
  }

  /** Since both counts come from the additions column, a row with `n` additions is big exactly
      when `n` exceeds half the threshold, whatever its deletions column says. */
  lemma EffectiveThreshold(n: nat, dels: string, path: string)
    requires n <= I32Max && '\t' !in dels && '\t' !in path
    ensures HasStatFields(NatToString(n) + "\t" + dels + "\t" + path)
    ensures StatLine(NatToString(n) + "\t" + dels + "\t" + path) == StatItem(path, n, n)
    ensures IsBig(StatLine(NatToString(n) + "\t" + dels + "\t" + path)) <==> n > LineThreshold / 2
  {
    var a := NatToString(n);
    assert '\t' !in a by {
      NatToStringDigits(n);
      forall i | 0 <= i < |a| ensures a[i] != '\t' { assert IsDigit(a[i]); }
    }
    assert Split(a + "\t" + dels + "\t" + path, '\t') == [a, dels] + Split(path, '\t') by {
      TabFields(a, dels, path);
    }
    ParseI32Printed(n);
  }

  /** Two tab-free fields and a tail joined by tabs split into the two fields and the tail's pieces. */
  lemma TabFields(a: string, b: string, rest: string)
    requires '\t' !in a && '\t' !in b
    ensures Split(a + "\t" + b + "\t" + rest, '\t') == [a, b] + Split(rest, '\t')
  {
    var s0 := b + ['\t'] + rest;
    SplitAtFirst(b, '\t', rest);
    SplitAtFirst(a, '\t', s0);
    TabRegroup(a, b, rest);
  }

  /** Two fields and a tail joined by tabs, grouped from the right. */
  lemma TabRegroup(a: string, b: string, rest: string)
    ensures a + "\t" + b + "\t" + rest == a + ['\t'] + (b + ['\t'] + rest)
  {
  }

  // =======================================================================================
  // Remote URL rewrite of `set_git_url`
  // =======================================================================================

  /** The text `git@` is replaced by. The format string's doubled braces are literal braces, so
      the token ends up wrapped in `{` and `}`. */
  function TokenAuthPrefix(token: string): string
  {
    "https://x-token-auth:{" + token + "}@"
  }

  /** The remote URL `set_git_url` installs: every `git@` becomes the token prefix, then every
      `bitbucket.org:` becomes `bitbucket.org/`. */
  function AuthenticatedUrl(gitUrl: string, token: string): string
  {
    ReplaceAll(ReplaceAll(gitUrl, "git@", TokenAuthPrefix(token)), "bitbucket.org:", "bitbucket.org/")
  }

  /** A match of `p` needs `p`'s characters at the matching offsets. */
  lemma MatchAtChar(s: string, i: nat, p: string, k: nat)
    requires MatchAt(s, i, p) && k < |p|
    ensures i + k < |s| && s[i + k] == p[k]
  {
    assert s[i..i + |p|][k] == s[i + k];
  }

  /** No `p` occurs where the text has no character equal to `p[k]`. */
  lemma AbsentWithoutChar(s: string, p: string, k: nat)
    requires k < |p| && p[k] !in s
    ensures !Contains(s, p)
  {
    if Contains(s, p) {
      var i: nat :| i + |p| <= |s| && MatchAt(s, i, p);
      MatchAtChar(s, i, p, k);
      assert false;
    }
  }

  /** An SSH clone URL `git@bitbucket.org:path` becomes the HTTPS URL with the token, the path
      kept as it was. */
  lemma SshUrlRewrite(path: string, token: string)
    requires ':' !in path && '@' !in path && ':' !in token
    ensures AuthenticatedUrl("git@bitbucket.org:" + path, token)
         == TokenAuthPrefix(token) + "bitbucket.org/" + path
  {
    SshUserReplaced(path, token);
    SshHostReplaced(path, token);
  }

  /** First replacement on an SSH URL: only the leading `git@` is rewritten. */
  lemma SshUserReplaced(path: string, token: string)
    requires '@' !in path
    ensures ReplaceAll("git@bitbucket.org:" + path, "git@", TokenAuthPrefix(token))
         == TokenAuthPrefix(token) + ("bitbucket.org:" + path)
  {
    var host := "bitbucket.org:" + path;
    assert "git@bitbucket.org:" + path == "" + ("git@" + host);
    assert '@' !in host;
    AbsentWithoutChar(host, "git@", 3);
    ReplaceOnce("", "git@", host, TokenAuthPrefix(token));
  }

  /** Second replacement: only the host's colon is rewritten, none in the token prefix. */
  lemma SshHostReplaced(path: string, token: string)
    requires ':' !in path && ':' !in token
    ensures ReplaceAll(TokenAuthPrefix(token) + ("bitbucket.org:" + path), "bitbucket.org:", "bitbucket.org/")
         == TokenAuthPrefix(token) + "bitbucket.org/" + path
  {
    var prefix := TokenAuthPrefix(token);
    forall i: nat | i < |prefix| ensures !MatchAt(prefix + ("bitbucket.org:" + path), i, "bitbucket.org:") {
      PrefixNoHost(token, path, i);
    }
    AbsentWithoutChar(path, "bitbucket.org:", 13);
    ReplaceOnce(prefix, "bitbucket.org:", path, "bitbucket.org/");
    assert prefix + ("bitbucket.org/" + path) == TokenAuthPrefix(token) + "bitbucket.org/" + path;
  }

  /** No occurrence of the host with its colon starts inside the token prefix. */
  lemma PrefixNoHost(token: string, path: string, i: nat)
    requires ':' !in token && i < |TokenAuthPrefix(token)|
    ensures !MatchAt(TokenAuthPrefix(token) + ("bitbucket.org:" + path), i, "bitbucket.org:")
  {
    var prefix := TokenAuthPrefix(token);
    var t := prefix + ("bitbucket.org:" + path);
    if MatchAt(t, i, "bitbucket.org:") {
      MatchAtChar(t, i, "bitbucket.org:", 13);
      MatchAtChar(t, i, "bitbucket.org:", 0);
      assert t[i + 13] == (prefix + "bitbucket.org:")[i + 13];
      assert t[7] == (prefix + "bitbucket.org:")[7];
      PrefixColons(token, i + 13);
      assert false;
    }
  }

  /** Where the colons are in the rewritten text before the path: only `https:`, `auth:` and
      the host's own; position 7 holds the `/` of `//`. */
  lemma PrefixColons(token: string, j: nat)
    requires ':' !in token
    requires 13 <= j < |TokenAuthPrefix(token)| + 13
    ensures var t := TokenAuthPrefix(token) + "bitbucket.org:"; t[j] == ':' ==> j == 20
    ensures (TokenAuthPrefix(token) + "bitbucket.org:")[7] == '/'
  {
    var head := "https://x-token-auth:{";
    var t := TokenAuthPrefix(token) + "bitbucket.org:";
    assert t == head + token + "}@bitbucket.org:";
    if j < |head| {
      assert t[j] == head[j];
    } else if j < |head| + |token| {
      assert t[j] == token[j - |head|];
    } else {
      assert t[j] == "}@bitbucket.org:"[j - |head| - |token|];
    }
    assert t[7] == head[7];
  }

  /** A URL in which neither pattern occurs is installed as it is. */
  lemma UrlWithoutPatterns(gitUrl: string, token: string)
    requires !Contains(gitUrl, "git@") && !Contains(gitUrl, "bitbucket.org:")
    ensures AuthenticatedUrl(gitUrl, token) == gitUrl
  {
    ReplaceAbsent(gitUrl, "git@", TokenAuthPrefix(token));
    ReplaceAbsent(gitUrl, "bitbucket.org:", "bitbucket.org/");
  }

  // =======================================================================================
  // Diff-region extractor: `git diff -U0` output
  // =======================================================================================

  /** Rust `s.match_indices("@@")`: start positions of the non-overlapping occurrences of `@@`
      at or after `from`, found left to right. */
  function DelimiterPositions(s: string, from: nat): (r: seq<nat>)
    ensures forall k :: 0 <= k < |r| ==> from <= r[k] && r[k] + 2 <= |s| && s[r[k]..r[k] + 2] == "@@"
    ensures forall k, k' :: 0 <= k && k' == k + 1 && k' < |r| ==> r[k] + 2 <= r[k']
    ensures forall p :: from <= p && p + 2 <= |s| && s[p..p + 2] == "@@" ==> p in r || p - 1 in r
    decreases |s| - from
  {
    if from + 2 > |s| then []
    else if s[from..from + 2] == "@@" then [from] + DelimiterPositions(s, from + 2)
    else DelimiterPositions(s, from + 1)
  }

  /** The number of stretches between consecutive `@@` delimiters. */
  function SegmentCount(diff: string): nat
  {
    var n := |DelimiterPositions(diff, 0)|;
    if n == 0 then 0 else n - 1
  }

  /** The text between delimiters `k` and `k + 1`: a header body, or the hunk text after one. */
  function Segment(diff: string, k: nat): string
    requires k < SegmentCount(diff)
  {
    var pos := DelimiterPositions(diff, 0);
    diff[pos[k] + 2..pos[k + 1]]
  }

  /** What one segment contributes: nothing, a `"start,end"` range token, or a panic of one of
      the `unwrap` calls on a count that is not a number. */
  datatype HeaderRange = Skip | Range(token: string) | Unparsable

  /** The header rule of `process_diff`. A segment is kept only when it has no line break and
      splits on spaces into exactly four pieces, the second containing a `-`. Every `-` is then
      removed from that piece; `l,n` becomes `l,l+n` (printed anew) and a lone `l` gets `,l`
      appended. */
  function HeaderToken(line: string): HeaderRange
  {
    var sublines := Split(line, ' ');
    if '\n' in line || |sublines| != 4 then Skip else DeletionToken(sublines[1])
  }

  /** The header rule on the second piece of a kept segment. */
  function DeletionToken(deletion: string): HeaderRange
  {
    if '-' !in deletion then Skip else RangeToken(RemoveChar(deletion, '-'))
  }

  /** The header rule on the second piece once its `-` signs are removed. */
  function RangeToken(d: string): HeaderRange
  {
    if ',' in d then
      var delsplit := Split(d, ',');
      assert |delsplit| >= 2 by { SplitHasTwoPieces(d, ','); }
      match (ParseI32(delsplit[0]), ParseI32(delsplit[1]))
      case (Some(delidx), Some(deldiff)) =>
        Range(IntToString(delidx) + "," + IntToString(delidx + deldiff))
      case _ => Unparsable
    else
      match ParseI32(d)
      case Some(delidx) => Range(d + "," + IntToString(delidx))
      case None => Unparsable
  }

  /** A string with the separator in it splits into at least two pieces. */
  lemma {:induction false} SplitHasTwoPieces(s: string, c: char)
    requires c in s
    ensures |Split(s, c)| >= 2
    decreases |s|
  {
    if s[0] != c {
      assert c in s[1..] by { var k :| 0 <= k < |s| && s[k] == c; assert s[1..][k - 1] == c; }
      SplitHasTwoPieces(s[1..], c);
    }
  }

  /** A printed number holds no character other than a digit. */
  lemma PrintedAvoids(n: nat, c: char)
    requires !IsDigit(c)
    ensures c !in NatToString(n)
  {
    NatToStringDigits(n);
  }

  /** The header rule on a segment already split into its four pieces, with a count. */
  lemma HeaderOfCountedPieces(line: string, del: string, add: string, ls: string, ns: string, l: int, n: int)
    requires '\n' !in line && Split(line, ' ') == ["", del, add, ""]
    requires '-' in del && RemoveChar(del, '-') == ls + "," + ns
    requires Split(ls + "," + ns, ',') == [ls, ns]
    requires ParseI32(ls) == Some(l) && ParseI32(ns) == Some(n)
    ensures HeaderToken(line) == Range(IntToString(l) + "," + IntToString(l + n))
  {
    assert HeaderToken(line) == DeletionToken(del);
    assert DeletionToken(del) == RangeToken(ls + "," + ns);
    RangeOfCounted(ls, ns, l, n);
  }

  /** The range rule on `l,n` whose pieces parse: the token is `l,l+n`. */
  lemma RangeOfCounted(ls: string, ns: string, l: int, n: int)
    requires Split(ls + "," + ns, ',') == [ls, ns]
    requires ParseI32(ls) == Some(l) && ParseI32(ns) == Some(n)
    ensures RangeToken(ls + "," + ns) == Range(IntToString(l) + "," + IntToString(l + n))
  {
    var d := ls + "," + ns;
    assert ',' in d by {
      assert d[|ls|] == ',';
    }
  }

  /** The header rule on a segment already split into its four pieces, without a count. */
  lemma HeaderOfPlainPieces(line: string, del: string, add: string, ls: string, l: int)
    requires '\n' !in line && Split(line, ' ') == ["", del, add, ""]
    requires '-' in del && RemoveChar(del, '-') == ls && ',' !in ls
    requires ParseI32(ls) == Some(l)
    ensures HeaderToken(line) == Range(ls + "," + IntToString(l))
  {
    assert HeaderToken(line) == DeletionToken(del);
  }

  /** A header body is four pieces around three spaces, the first and last empty. */
  lemma FourPieces(del: string, add: string)
    requires ' ' !in del && ' ' !in add
    ensures Split(" " + del + " " + add + " ", ' ') == ["", del, add, ""]
  {
    ThreeWords("", del, add, "");
    assert "" + " " + del + " " + add + " " + "" == " " + del + " " + add + " ";
  }

  /** A header body ` -l,n +a,b ` yields the token `l,l+n`: the end is the start plus the count,
      not the hunk's last line. */
  lemma HeaderWithCount(l: nat, n: nat, add: string)
    requires l + n <= I32Max
    requires ' ' !in add && '\n' !in add
    ensures HeaderToken(" -" + NatToString(l) + "," + NatToString(n) + " " + add + " ")
         == Range(NatToString(l) + "," + NatToString(l + n))
  {
    var ls, ns := NatToString(l), NatToString(n);
    var del := "-" + ls + "," + ns;
    var line := " " + del + " " + add + " ";
    assert line == " -" + ls + "," + ns + " " + add + " ";
    assert Split(line, ' ') == ["", del, add, ""] by {
      PrintedAvoids(l, ' '); PrintedAvoids(n, ' ');
      FourPieces(del, add);
    }
    assert '\n' !in line by {
      PrintedAvoids(l, '\n'); PrintedAvoids(n, '\n');
    }
    assert HeaderToken(line) == DeletionToken(del);
    CountedDeletion(l, n);
  }

  /** The deletion piece `-l,n` of printed numbers gives the token `l,l+n`. */
  lemma CountedDeletion(l: nat, n: nat)
    requires l + n <= I32Max
    ensures DeletionToken("-" + NatToString(l) + "," + NatToString(n))
         == Range(NatToString(l) + "," + NatToString(l + n))
  {
    var ls, ns := NatToString(l), NatToString(n);
    var d := ls + "," + ns;
    var del := "-" + d;
    assert del == "-" + ls + "," + ns;
    assert '-' in del && RemoveChar(del, '-') == d by {
      assert del[0] == '-';
      PrintedAvoids(l, '-'); PrintedAvoids(n, '-');
      RemoveCharAppend("-", d, '-');
    }
    assert Split(d, ',') == [ls, ns] by {
      PrintedAvoids(l, ','); PrintedAvoids(n, ',');
      assert d == ls + [','] + ns;
      SplitAtFirst(ls, ',', ns);
    }
    assert ParseI32(ls) == Some(l) && ParseI32(ns) == Some(n) by {
      ParseI32Printed(l);
      ParseI32Printed(n);
    }
    assert DeletionToken(del) == RangeToken(d);
    RangeOfCounted(ls, ns, l, n);
  }

  /** A header body ` -l +a ` without a count yields the token `l,l`. */
  lemma HeaderWithoutCount(l: nat, add: string)
    requires l <= I32Max
    requires ' ' !in add && '\n' !in add
    ensures HeaderToken(" -" + NatToString(l) + " " + add + " ") == Range(NatToString(l) + "," + NatToString(l))
  {
    var ls := NatToString(l);
    var del := "-" + ls;
    var line := " " + del + " " + add + " ";
    assert line == " -" + ls + " " + add + " ";
    assert Split(line, ' ') == ["", del, add, ""] by {
      PrintedAvoids(l, ' ');
      FourPieces(del, add);
    }
    assert '\n' !in line by {
      PrintedAvoids(l, '\n');
    }
    assert '-' in del && RemoveChar(del, '-') == ls by {
      assert del[0] == '-';
      PrintedAvoids(l, '-');
      RemoveCharAppend("-", ls, '-');
    }
    assert ',' !in ls by {
      PrintedAvoids(l, ',');
    }
    assert ParseI32(ls) == Some(l) by {
      ParseI32Printed(l);
    }
    HeaderOfPlainPieces(line, del, add, ls, l);
  }

  /** The outcome of the headers of the first `n` segments, in order. */
  function Outcomes(diff: string, n: nat): (r: seq<HeaderRange>)
    requires n <= SegmentCount(diff)
    ensures |r| == n
    decreases n
  {
    if n == 0 then [] else Outcomes(diff, n - 1) + [HeaderToken(Segment(diff, n - 1))]
  }

  /** The outcomes of the first `i` segments are a prefix of those of the first `n`. */
  lemma {:induction false} OutcomesPrefix(diff: string, i: nat, n: nat)
    requires i <= n <= SegmentCount(diff)
    ensures Outcomes(diff, n)[..i] == Outcomes(diff, i)
    decreases n - i
  {
    if i < n {
      var o := Outcomes(diff, n);
      OutcomesPrefix(diff, i, n - 1);
      assert o[..n - 1] == Outcomes(diff, n - 1);
      assert o[..i] == o[..n - 1][..i];
    } else {
      assert Outcomes(diff, n)[..n] == Outcomes(diff, n);
    }
  }

  /** The tokens of a sequence of header outcomes: the kept tokens in order, or a panic when
      any outcome is one. */
  function HunkTokens(outs: seq<HeaderRange>): Checked<seq<string>>
    decreases |outs|
  {
    if outs == [] then Ok([])
    else
      match HunkTokens(outs[..|outs| - 1])
      case Panic => Panic
      case Ok(toks) =>
        match outs[|outs| - 1]
        case Skip => Ok(toks)
        case Range(t) => Ok(toks + [t])
        case Unparsable => Panic
  }

  /** The range tokens one file's diff yields. */
  function FileHunks(diff: string): Checked<seq<string>>
  {
    HunkTokens(Outcomes(diff, SegmentCount(diff)))
  }

  /** The entry map once the files in `done` have been processed without a panic. */
  function DoneMap(diffmap: map<string, string>, done: set<string>): map<string, seq<string>>
  {
    map f | f in done && f in diffmap && FileHunks(diffmap[f]).Ok? && FileHunks(diffmap[f]).value != []
      :: FileHunks(diffmap[f]).value
  }

  /** What `process_diff` computes: a panic when any file's headers panic, otherwise a map from
      each file with at least one kept header to its tokens. */
  function LineMap(diffmap: map<string, string>): Checked<map<string, seq<string>>>
  {
    if exists f :: f in diffmap && FileHunks(diffmap[f]).Panic? then Panic
    else Ok(DoneMap(diffmap, diffmap.Keys))
  }

  /** Once a prefix of the segments panics, so does the whole file. */
  lemma {:induction false} HunkTokensPanicStays(outs: seq<HeaderRange>, i: nat)
    requires i <= |outs| && HunkTokens(outs[..i]).Panic?
    ensures HunkTokens(outs).Panic?
    decreases |outs| - i
  {
    if i < |outs| {
      var next := outs[..i + 1];
      assert next[..|next| - 1] == outs[..i];
      HunkTokensPanicStays(outs, i + 1);
    } else {
      assert outs[..i] == outs;
    }
  }

  /** One more outcome: a skipped segment adds nothing, a kept one appends its token, and an
      unparsable one panics. */
  lemma HunkTokensSnoc(outs: seq<HeaderRange>, h: HeaderRange)
    ensures HunkTokens(outs + [h]) ==
      match HunkTokens(outs)
      case Panic => Panic
      case Ok(toks) =>
        match h
        case Skip => Ok(toks)
        case Range(t) => Ok(toks + [t])
        case Unparsable => Panic
  {
    assert (outs + [h])[..|outs|] == outs;
  }

  /** The entry map after a file's tokens are appended to the entry for `filepath`; a file
      without tokens leaves the map as it was. */
  function AddTokens(linemap: map<string, seq<string>>, filepath: string, toks: seq<string>): map<string, seq<string>>
  {
    if toks == [] then linemap
    else linemap[filepath := (if filepath in linemap then linemap[filepath] else []) + toks]
  }

  /** Pushing one more token onto a file's entry, the way `process_diff` does it: append to an
      existing entry or start a new one. */
  function Push(linemap: map<string, seq<string>>, filepath: string, t: string): map<string, seq<string>>
  {
    if filepath in linemap then linemap[filepath := linemap[filepath] + [t]] else linemap[filepath := [t]]
  }

  /** Tokens pushed one at a time build the same entry as appending them all at once. */
  lemma AddTokensSnoc(linemap0: map<string, seq<string>>, filepath: string, toks: seq<string>, t: string)
    ensures AddTokens(linemap0, filepath, toks + [t]) == Push(AddTokens(linemap0, filepath, toks), filepath, t)
  {
    if toks == [] {
      assert toks + [t] == [t];
    } else {
      var old0 := if filepath in linemap0 then linemap0[filepath] else [];
      assert old0 + (toks + [t]) == (old0 + toks) + [t];
    }
  }

  /** The header step of `process_diff`'s inner loop, on one segment. */
  method ParseHunkHeader(line: string) returns (h: HeaderRange)
    ensures h == HeaderToken(line)
  {
    var sublines := Split(line, ' ');
    if '\n' in line || |sublines| != 4 {
      return Skip;
    }
    var deletionstr := sublines[1];
    if '-' !in deletionstr {
      return Skip;
    }
    deletionstr := RemoveChar(deletionstr, '-');
    if ',' in deletionstr {
      var delsplit := Split(deletionstr, ',');
      SplitHasTwoPieces(deletionstr, ',');
      var delidx := ParseI32(delsplit[0]);
      var deldiff := ParseI32(delsplit[1]);
      if delidx.None? || deldiff.None? {
        return Unparsable;
      }
      deletionstr := IntToString(delidx.value) + "," + IntToString(delidx.value + deldiff.value);
    } else {
      var delidx := ParseI32(deletionstr);
      if delidx.None? {
        return Unparsable;
      }
      deletionstr := deletionstr + "," + IntToString(delidx.value);
    }
    return Range(deletionstr);
  }

  /** The header step on the segment between delimiters `idx` and `idx + 1`: the next outcome. */
  method SegmentHeader(diff: string, limiterpos: seq<nat>, idx: nat) returns (header: HeaderRange)
    requires limiterpos == DelimiterPositions(diff, 0) && idx + 1 < |limiterpos|
    ensures idx < SegmentCount(diff)
    ensures Outcomes(diff, idx) + [header] == Outcomes(diff, idx + 1)
  {
    var line := diff[limiterpos[idx] + 2..limiterpos[idx + 1]];
    assert line == Segment(diff, idx);
    header := ParseHunkHeader(line);
  }

  /** The inner loop of `process_diff` for one file: walk the segments between consecutive `@@`
      delimiters and push each kept header's token onto the file's entry. */
  method AddFileHunks(linemap0: map<string, seq<string>>, filepath: string, diff: string)
    returns (r: Checked<map<string, seq<string>>>)
    ensures FileHunks(diff).Panic? ==> r.Panic?
    ensures FileHunks(diff).Ok? ==> r == Ok(AddTokens(linemap0, filepath, FileHunks(diff).value))
  {
    var linemap := linemap0;
    var limiterpos := DelimiterPositions(diff, 0);
    var idx := 0;
    var len := |limiterpos|;
    ghost var outs: seq<HeaderRange> := [];
    ghost var toks: seq<string> := [];
    while idx + 1 < len
      invariant idx <= SegmentCount(diff)
      invariant len > 0 ==> idx <= len - 1
      invariant outs == Outcomes(diff, idx)
      invariant HunkTokens(outs) == Ok(toks)
      invariant linemap == AddTokens(linemap0, filepath, toks)
    {
      var header := SegmentHeader(diff, limiterpos, idx);
      HunkTokensSnoc(outs, header);
      outs := outs + [header];
      match header {
        case Skip =>
        case Unparsable =>
          assert FileHunks(diff).Panic? by {
            OutcomesPrefix(diff, idx + 1, SegmentCount(diff));
            HunkTokensPanicStays(Outcomes(diff, SegmentCount(diff)), idx + 1);
          }
          return Panic;
        case Range(deletionstr) =>
          AddTokensSnoc(linemap0, filepath, toks, deletionstr);
          linemap := Push(linemap, filepath, deletionstr);
          toks := toks + [deletionstr];
      }
      idx := idx + 1;
    }
    assert idx == SegmentCount(diff);
    return Ok(linemap);
  }

  /** Processing one more file adds exactly that file's entry. */
  lemma DoneMapStep(diffmap: map<string, string>, done: set<string>, f: string)
    requires f in diffmap && f !in done && FileHunks(diffmap[f]).Ok?
    ensures AddTokens(DoneMap(diffmap, done), f, FileHunks(diffmap[f]).value) == DoneMap(diffmap, done + {f})
  {
    var toks := FileHunks(diffmap[f]).value;
    assert [] + toks == toks;
  }

  /** `process_diff`: every file of the map, in the map's arbitrary order. */
  method ProcessDiff(diffmap: map<string, string>) returns (r: Checked<map<string, seq<string>>>)
    ensures r == LineMap(diffmap)
  {
    var linemap: map<string, seq<string>> := map[];
    var done: set<string> := {};
    while done != diffmap.Keys
      invariant done <= diffmap.Keys
      invariant forall f :: f in done ==> FileHunks(diffmap[f]).Ok?
      invariant linemap == DoneMap(diffmap, done)
      decreases diffmap.Keys - done
    {
      var filepath :| filepath in diffmap && filepath !in done;
      var next := AddFileHunks(linemap, filepath, diffmap[filepath]);
      if next.Panic? {
        return Panic;
      }
      DoneMapStep(diffmap, done, filepath);
      linemap := next.value;
      done := done + {filepath};
    }
    return Ok(linemap);
  }

  // =======================================================================================
  // Blame-line parser: `git blame -e --date=unix` output
  // =======================================================================================

  /** Author and timestamp of one blamed line. */
  datatype LineItem = LineItem(author: string, timestamp: string)

  /** The first index at or after `i` whose word is not empty, or `i` itself once `i` is past the
      last word: the `while idx < len && wordvec[idx] == ""` loop. */
  function SkipEmpty(words: seq<string>, i: nat): (j: nat)
    ensures i <= j
    ensures j < |words| ==> words[j] != ""
    ensures i <= |words| ==> j <= |words|
    ensures forall k :: i <= k < j && k < |words| ==> words[k] == ""
    decreases |words| - i
  {
    if i < |words| && words[i] == "" then SkipEmpty(words, i + 1) else i
  }

  /** The author with every `(`, `<` and `>` removed, in that order. */
  function CleanAuthor(author: string): (r: string)
    ensures '(' !in r && '<' !in r && '>' !in r
    ensures forall x :: x in r ==> x in author
  {
    RemoveChar(RemoveChar(RemoveChar(author, '('), '<'), '>')
  }

  /** What `process_blamelines` makes of one line. The words are the pieces between single
      spaces. The author is word 1, or, when that is empty, the next non-empty word; the
      timestamp is word 2, or, when that is empty, the next non-empty word after the author's
      position. A line with fewer than three words makes the indexing panic. */
  function BlameLine(ln: string): Checked<LineItem>
  {
    var words := Split(ln, ' ');
    if |words| < 3 then Panic
    else
      var idx1 := if words[1] == "" then SkipEmpty(words, 1) else 1;
      var author := if words[1] == "" && idx1 < |words| then words[idx1] else words[1];
      var idx2 := SkipEmpty(words, idx1 + 1);
      var timestamp := if words[2] == "" && idx2 < |words| then words[idx2] else words[2];
      Ok(LineItem(CleanAuthor(author), timestamp))
  }

  /** A `git blame -e --date=unix` line `hash (<mail> time zone n) code`: the author is the
      cleaned second word and the timestamp the third. */
  lemma BlameLineWords(hash: string, author: string, time: string, rest: string)
    requires ' ' !in hash && ' ' !in author && ' ' !in time
    requires author != "" && time != ""
    ensures BlameLine(hash + " " + author + " " + time + " " + rest) == Ok(LineItem(CleanAuthor(author), time))
  {
    var words := Split(hash + " " + author + " " + time + " " + rest, ' ');
    assert words == [hash, author, time] + Split(rest, ' ') by {
      ThreeWords(hash, author, time, rest);
    }
    assert |words| >= 3 && words[1] == author && words[2] == time;
  }

  /** The words of a line with single spaces after the first three words. */
  lemma ThreeWords(hash: string, author: string, time: string, rest: string)
    requires ' ' !in hash && ' ' !in author && ' ' !in time
    ensures Split(hash + " " + author + " " + time + " " + rest, ' ') == [hash, author, time] + Split(rest, ' ')
  {
    var s0 := time + [' '] + rest;
    var s1 := author + [' '] + s0;
    SplitAtFirst(time, ' ', rest);
    SplitAtFirst(author, ' ', s0);
    SplitAtFirst(hash, ' ', s1);
    SpacedRegroup(hash, author, time, rest);
  }

  /** Three words and a tail joined by single spaces, grouped from the right. */
  lemma SpacedRegroup(a: string, b: string, c: string, d: string)
    ensures a + " " + b + " " + c + " " + d == a + [' '] + (b + [' '] + (c + [' '] + d))
  {
  }

  /** With padding after the author, the empty words are skipped to reach the timestamp. */
  lemma BlameLinePadded(hash: string, author: string, time: string, rest: string)
    requires ' ' !in hash && ' ' !in author && ' ' !in time
    requires author != "" && time != ""
    ensures BlameLine(hash + " " + author + "   " + time + " " + rest) == Ok(LineItem(CleanAuthor(author), time))
  {
    var words := Split(hash + " " + author + "   " + time + " " + rest, ' ');
    PaddedWords(hash, author, time, rest);
    assert words[1] == author && words[2] == "" && words[3] == "" && words[4] == time;
    assert SkipEmpty(words, 4) == 4;
    assert SkipEmpty(words, 3) == 4;
    assert SkipEmpty(words, 2) == 4;
  }

  /** The words of a line with three spaces after the author. */
  lemma PaddedWords(hash: string, author: string, time: string, rest: string)
    requires ' ' !in hash && ' ' !in author && ' ' !in time
    ensures Split(hash + " " + author + "   " + time + " " + rest, ' ')
         == [hash, author, "", "", time] + Split(rest, ' ')
  {
    var s0 := time + [' '] + rest;
    SplitAtFirst(time, ' ', rest);
    var s1 := [' '] + s0;
    assert s1[1..] == s0;
    assert Split(s1, ' ') == [""] + Split(s0, ' ');
    var s2 := [' '] + s1;
    assert s2[1..] == s1;
    assert Split(s2, ' ') == [""] + Split(s1, ' ');
    var s3 := author + [' '] + s2;
    SplitAtFirst(author, ' ', s2);
    var s4 := hash + [' '] + s3;
    SplitAtFirst(hash, ' ', s3);
    assert Split(s4, ' ') == [hash] + ([author] + ([""] + ([""] + ([time] + Split(rest, ' ')))));
    FiveWords(hash, author, "", "", time, Split(rest, ' '));
    PaddedLine(hash, author, time, rest);
  }

  /** The padded line regrouped around its separators. */
  lemma PaddedLine(hash: string, author: string, time: string, rest: string)
    ensures hash + " " + author + "   " + time + " " + rest
         == hash + [' '] + (author + [' '] + ([' '] + ([' '] + (time + [' '] + rest))))
  {
  }

  /** Five words consed one at a time onto the rest. */
  lemma FiveWords(a: string, b: string, c: string, d: string, e: string, r: seq<string>)
    ensures [a] + ([b] + ([c] + ([d] + ([e] + r)))) == [a, b, c, d, e] + r
  {
  }

  /** When word 1 is empty but word 2 is not, the author is found by skipping, yet the timestamp
      stays word 2, which is the author's raw text. */
  lemma BlameLineShiftedTimestamp(hash: string, author: string, rest: string)
    requires ' ' !in hash && ' ' !in author && author != ""
    ensures BlameLine(hash + "  " + author + " " + rest) == Ok(LineItem(CleanAuthor(author), author))
  {
    assert hash + "  " + author + " " + rest == hash + [' '] + ("" + [' '] + (author + [' '] + rest));
    SplitAtFirst(hash, ' ', "" + [' '] + (author + [' '] + rest));
    SplitAtFirst("", ' ', author + [' '] + rest);
    SplitAtFirst(author, ' ', rest);
    var words := Split(hash + "  " + author + " " + rest, ' ');
    assert words[..3] == [hash, "", author];
    assert SkipEmpty(words, 1) == 2;
  }

  /** The `(<mail>` word of a blame line cleans to the bare address. */
  lemma CleanBracketedMail(mail: string)
    requires '(' !in mail && '<' !in mail && '>' !in mail
    ensures CleanAuthor("(<" + mail + ">") == mail
  {
    var tail := mail + ">";
    assert '(' !in tail && '<' !in tail;
    assert "(<" + mail + ">" == "(<" + tail;
    RemoveCharAppend("(<", tail, '(');
    assert RemoveChar("(<", '(') == "<" by { assert "(<"[1..] == "<"; assert "<"[1..] == ""; }
    RemoveCharAppend("<", tail, '<');
    assert RemoveChar("<", '<') == "" by { assert "<"[1..] == ""; }
    assert "" + tail == tail;
    RemoveCharAppend(mail, ">", '>');
    assert RemoveChar(">", '>') == "" by { assert ">"[1..] == ""; }
    assert mail + "" == mail;
  }

  /** The body of `process_blamelines`' loop for one line, with its two skipping loops. */
  method ScanBlameLine(ln: string) returns (r: Checked<LineItem>)
    ensures r == BlameLine(ln)
  {
    var wordvec := Split(ln, ' ');
    if |wordvec| < 3 {
      return Panic;
    }
    var author := wordvec[1];
    var timestamp := wordvec[2];
    var idx := 1;
    if author == "" {
      while idx < |wordvec| && wordvec[idx] == ""
        invariant 1 <= idx <= |wordvec|
        invariant SkipEmpty(wordvec, idx) == SkipEmpty(wordvec, 1)
        decreases |wordvec| - idx
      {
        idx := idx + 1;
      }
      if idx < |wordvec| {
        author := wordvec[idx];
      }
    }
    ghost var idx1 := idx;
    assert idx1 == if wordvec[1] == "" then SkipEmpty(wordvec, 1) else 1;
    var authorstr := CleanAuthor(author);
    if timestamp == "" {
      idx := idx + 1;
      while idx < |wordvec| && wordvec[idx] == ""
        invariant idx1 + 1 <= idx <= |wordvec| + 1
        invariant SkipEmpty(wordvec, idx) == SkipEmpty(wordvec, idx1 + 1)
        decreases |wordvec| - idx
      {
        idx := idx + 1;
      }
      if idx < |wordvec| {
        timestamp := wordvec[idx];
      }
    }
    return Ok(LineItem(authorstr, timestamp));
  }

  /** The outcome of parsing each line, one per line. */
  function ParseEach(lines: seq<string>): (r: seq<Checked<LineItem>>)
    ensures |r| == |lines| && forall i :: 0 <= i < |lines| ==> r[i] == BlameLine(lines[i])
  {
    seq(|lines|, i requires 0 <= i < |lines| => BlameLine(lines[i]))
  }

  /** The parsed lines in order; a panic on any line aborts. */
  function LineItems(lines: seq<string>): Checked<seq<LineItem>>
  {
    AllOk(ParseEach(lines))
  }

  /** The items are there exactly when every line parses. */
  lemma LineItemsOk(lines: seq<string>)
    ensures LineItems(lines).Ok? <==> forall i :: 0 <= i < |lines| ==> BlameLine(lines[i]).Ok?
  {
    AllOkIff(ParseEach(lines));
  }

  /** When there, the items are one per line and in line order. */
  lemma LineItemsValues(lines: seq<string>)
    requires LineItems(lines).Ok?
    ensures |LineItems(lines).value| == |lines|
    ensures forall i :: 0 <= i < |lines| ==>
      BlameLine(lines[i]).Ok? && LineItems(lines).value[i] == BlameLine(lines[i]).value
  {
    AllOkValues(ParseEach(lines));
  }

  /** `process_blamelines`: one entry per line, keyed by the range start plus the line's offset,
      so the keys are exactly `linenum .. linenum + |blamelines| - 1` and each entry depends on
      its own line only; a line with fewer than three words panics. */
  method ProcessBlameLines(blamelines: seq<string>, linenum: nat) returns (r: Checked<map<nat, LineItem>>)
    ensures r.Ok? <==> forall i :: 0 <= i < |blamelines| ==> BlameLine(blamelines[i]).Ok?
    ensures r.Ok? ==> forall k :: k in r.value <==> linenum <= k < linenum + |blamelines|
    ensures r.Ok? ==> forall i :: 0 <= i < |blamelines| ==> r.value[linenum + i] == BlameLine(blamelines[i]).value
  {
    var linemap: map<nat, LineItem> := map[];
    for lnum := 0 to |blamelines|
      invariant MapsLines(linemap, blamelines, linenum, lnum)
    {
      var item := ScanBlameLine(blamelines[lnum]);
      if item.Panic? {
        return Panic;
      }
      MapsLinesStep(linemap, blamelines, linenum, lnum, item.value);
      linemap := linemap[linenum + lnum := item.value];
    }
    return Ok(linemap);
  }

  /** The loop state of `process_blamelines` after `n` lines: each of them scanned, and the map
      holding exactly their entries. */
  ghost predicate MapsLines(m: map<nat, LineItem>, blamelines: seq<string>, linenum: nat, n: nat)
  {
    n <= |blamelines|
    && (forall i :: 0 <= i < n ==> BlameLine(blamelines[i]).Ok?)
    && (forall k :: k in m <==> linenum <= k < linenum + n)
    && (forall i :: 0 <= i < n ==> m[linenum + i] == BlameLine(blamelines[i]).value)
  }

  /** Entering the next line's entry extends the loop state by one line. */
  lemma MapsLinesStep(m: map<nat, LineItem>, blamelines: seq<string>, linenum: nat, n: nat, v: LineItem)
    requires MapsLines(m, blamelines, linenum, n) && n < |blamelines| && BlameLine(blamelines[n]) == Ok(v)
    ensures MapsLines(m[linenum + n := v], blamelines, linenum, n + 1)
  {
    var m' := m[linenum + n := v];
    forall i | 0 <= i < n + 1 ensures m'[linenum + i] == BlameLine(blamelines[i]).value {
      if i < n {
        assert linenum + i != linenum + n;
      }
    }
  }

  // =======================================================================================
  // Collapser: the range loop of `generate_blame`
  // =======================================================================================

  /** A run of consecutive lines with one author, `first` and `last` inclusive and counted
      from the start of the blamed block; the timestamp is the last line's. */
  datatype Run = Run(author: string, timestamp: string, first: nat, last: nat)

  /** An attribution record as the collapser emits it; the line numbers are rendered in decimal
      and the path is hashed. */
  datatype BlameItem = BlameItem(author: string, timestamp: string, lineStart: string, lineEnd: string, filepath: string)

  /** The collapse loop from line `i` of the block on, with the current run opened at line `lb`:
      a run is closed at `i` when the next line's author differs, and always at the last line. */
  function Scan(ls: seq<LineItem>, lb: nat, i: nat): seq<Run>
    requires i < |ls|
    decreases |ls| - i
  {
    if i == |ls| - 1 then [Run(ls[i].author, ls[i].timestamp, lb, i)]
    else if ls[i].author == ls[i + 1].author then Scan(ls, lb, i + 1)
    else [Run(ls[i].author, ls[i].timestamp, lb, i)] + Scan(ls, i + 1, i + 1)
  }

  /** The runs of a non-empty block of blamed lines. */
  function Collapse(ls: seq<LineItem>): seq<Run>
    requires |ls| >= 1
  {
    Scan(ls, 0, 0)
  }

  /** The state the loop keeps: the open run starts at `lb`, no later than the current line, and
      every line in it so far has the current line's author. */
  ghost predicate OpenRun(ls: seq<LineItem>, lb: nat, i: nat)
  {
    lb <= i < |ls| && forall j :: lb <= j <= i ==> ls[j].author == ls[i].author
  }

  /** One loop step keeps the open-run state. */
  lemma OpenRunStep(ls: seq<LineItem>, lb: nat, i: nat)
    requires OpenRun(ls, lb, i) && i + 1 < |ls|
    ensures ls[i].author == ls[i + 1].author ==> OpenRun(ls, lb, i + 1)
    ensures OpenRun(ls, i + 1, i + 1)
  {
  }

  /** Where the author does not change the loop only moves on. */
  lemma ScanSame(ls: seq<LineItem>, lb: nat, i: nat)
    requires i + 1 < |ls| && ls[i].author == ls[i + 1].author
    ensures Scan(ls, lb, i) == Scan(ls, lb, i + 1)
  {
  }

  /** At an author change the loop emits the open run and opens the next one. */
  lemma ScanCons(ls: seq<LineItem>, lb: nat, i: nat)
    requires i + 1 < |ls| && ls[i].author != ls[i + 1].author
    ensures Scan(ls, lb, i) == [Run(ls[i].author, ls[i].timestamp, lb, i)] + Scan(ls, i + 1, i + 1)
  {
  }

  /** The runs start at the open line, end at the block's last line, and each lies in the block
      with its first line no later than its last. */
  lemma {:induction false} ScanBounds(ls: seq<LineItem>, lb: nat, i: nat)
    requires OpenRun(ls, lb, i)
    ensures RunsWithin(Scan(ls, lb, i), lb, |ls|)
    decreases |ls| - i
  {
    if i < |ls| - 1 {
      OpenRunStep(ls, lb, i);
      if ls[i].author == ls[i + 1].author {
        ScanBounds(ls, lb, i + 1);
        ScanSame(ls, lb, i);
      } else {
        var rest := Scan(ls, i + 1, i + 1);
        assert RunsWithin(rest, i + 1, |ls|) by {
          ScanBounds(ls, i + 1, i + 1);
        }
        assert Scan(ls, lb, i) == [Run(ls[i].author, ls[i].timestamp, lb, i)] + rest by {
          ScanCons(ls, lb, i);
        }
        RunsConsBounds(Run(ls[i].author, ls[i].timestamp, lb, i), rest, |ls|);
      }
    }
  }

  /** Runs that start with line `lb`, end with line `n - 1`, and each lie between the two with
      the first line no later than the last. */
  ghost predicate RunsWithin(r: seq<Run>, lb: nat, n: nat)
  {
    |r| >= 1 && r[0].first == lb && r[|r| - 1].last == n - 1
    && forall k :: 0 <= k < |r| ==> lb <= r[k].first <= r[k].last < n
  }

  /** Each run begins on the line after the previous one ends, and the two authors differ. */
  ghost predicate RunsAdjacent(r: seq<Run>)
  {
    forall k, k' :: 0 <= k && k' == k + 1 && k' < |r| ==>
      r[k].last + 1 == r[k'].first && r[k].author != r[k'].author
  }

  /** Every line a run spans has the run's author. */
  ghost predicate RunsOneAuthor(r: seq<Run>, ls: seq<LineItem>)
  {
    forall k, j :: 0 <= k < |r| && r[k].first <= j <= r[k].last && j < |ls| ==> ls[j].author == r[k].author
  }

  /** Every run ends inside the block and carries the author and the timestamp of its last line. */
  ghost predicate RunsStamped(r: seq<Run>, ls: seq<LineItem>)
  {
    forall k :: 0 <= k < |r| ==>
      r[k].last < |ls| && r[k].author == ls[r[k].last].author && r[k].timestamp == ls[r[k].last].timestamp
  }

  /** A run placed before runs that start right after it ends keeps the bounds. */
  lemma RunsConsBounds(head: Run, rest: seq<Run>, n: nat)
    requires head.first <= head.last && RunsWithin(rest, head.last + 1, n)
    ensures RunsWithin([head] + rest, head.first, n)
  {
    var r := [head] + rest;
    assert r[|r| - 1] == rest[|rest| - 1];
    forall k | 0 <= k < |r| ensures head.first <= r[k].first <= r[k].last < n {
      if k > 0 {
        assert r[k] == rest[k - 1];
      }
    }
  }

  /** Each run begins on the line after the previous one ends, and the two authors differ. */
  lemma {:induction false} ScanAdjacent(ls: seq<LineItem>, lb: nat, i: nat)
    requires OpenRun(ls, lb, i)
    ensures RunsAdjacent(Scan(ls, lb, i))
    decreases |ls| - i
  {
    if i < |ls| - 1 {
      OpenRunStep(ls, lb, i);
      if ls[i].author == ls[i + 1].author {
        ScanAdjacent(ls, lb, i + 1);
        ScanSame(ls, lb, i);
      } else {
        var rest := Scan(ls, i + 1, i + 1);
        ScanAdjacent(ls, i + 1, i + 1);
        ScanBounds(ls, i + 1, i + 1);
        ScanFirstAuthor(ls, i + 1);
        ScanCons(ls, lb, i);
        var r := Scan(ls, lb, i);
        forall k, k' | 0 <= k && k' == k + 1 && k' < |r|
          ensures r[k].last + 1 == r[k'].first && r[k].author != r[k'].author
        {
          assert r[k'] == rest[k];
          if k > 0 {
            assert r[k] == rest[k - 1];
          }
        }
      }
    }
  }

  /** Every run carries the author and the timestamp of its last line. */
  lemma {:induction false} ScanEndLine(ls: seq<LineItem>, lb: nat, i: nat)
    requires OpenRun(ls, lb, i)
    ensures RunsStamped(Scan(ls, lb, i), ls)
    decreases |ls| - i
  {
    if i < |ls| - 1 {
      OpenRunStep(ls, lb, i);
      if ls[i].author == ls[i + 1].author {
        ScanEndLine(ls, lb, i + 1);
        ScanSame(ls, lb, i);
      } else {
        ScanEndLine(ls, i + 1, i + 1);
        ScanCons(ls, lb, i);
      }
    }
  }

  /** The first run of a scan opened at `lb` has the author of line `lb`. */
  lemma ScanFirstAuthor(ls: seq<LineItem>, lb: nat)
    requires OpenRun(ls, lb, lb)
    ensures |Scan(ls, lb, lb)| >= 1 && Scan(ls, lb, lb)[0].author == ls[lb].author
  {
    var r := Scan(ls, lb, lb);
    ScanBounds(ls, lb, lb);
    ScanSingleAuthor(ls, lb, lb);
    assert r[0].first <= lb <= r[0].last;
  }

  /** Every line a run spans has the run's author. */
  lemma {:induction false} ScanSingleAuthor(ls: seq<LineItem>, lb: nat, i: nat)
    requires OpenRun(ls, lb, i)
    ensures RunsOneAuthor(Scan(ls, lb, i), ls)
    decreases |ls| - i
  {
    if i < |ls| - 1 {
      OpenRunStep(ls, lb, i);
      if ls[i].author == ls[i + 1].author {
        ScanSingleAuthor(ls, lb, i + 1);
        ScanSame(ls, lb, i);
      } else {
        ScanSingleAuthor(ls, i + 1, i + 1);
        ScanBounds(ls, i + 1, i + 1);
        ScanCons(ls, lb, i);
      }
    }
  }

  /** The shape of a collapse: runs that start at the block's first line and end at its last,
      each non-empty, each starting on the line after its predecessor ends and with a different
      author from it, every line of a run having the run's author, and each run carrying the
      timestamp of its last line. */
  lemma CollapseShape(ls: seq<LineItem>)
    requires |ls| >= 1
    ensures var r := Collapse(ls);
      RunsWithin(r, 0, |ls|) && RunsAdjacent(r) && RunsOneAuthor(r, ls) && RunsStamped(r, ls)
  {
    ScanBounds(ls, 0, 0);
    ScanAdjacent(ls, 0, 0);
    ScanSingleAuthor(ls, 0, 0);
    ScanEndLine(ls, 0, 0);
  }

  /** Runs laid end to end from line 0 cover every line of the block. */
  lemma {:induction false} RunsCover(r: seq<Run>, j: nat)
    requires |r| >= 1 && r[0].first <= j <= r[|r| - 1].last
    requires forall k :: 0 <= k < |r| ==> r[k].first <= r[k].last
    requires forall k, k' :: 0 <= k && k' == k + 1 && k' < |r| ==> r[k].last + 1 == r[k'].first
    ensures exists k :: 0 <= k < |r| && r[k].first <= j <= r[k].last
    decreases |r|
  {
    if j > r[0].last {
      var tail := r[1..];
      assert r[1] == tail[0];
      assert forall k, k' :: 0 <= k && k' == k + 1 && k' < |tail| ==> tail[k] == r[k + 1] && tail[k'] == r[k' + 1];
      RunsCover(tail, j);
      var k :| 0 <= k < |tail| && tail[k].first <= j <= tail[k].last;
      assert r[k + 1] == tail[k];
    }
  }

  /** Every line of the block lies in some run of its collapse. */
  lemma CollapseCovers(ls: seq<LineItem>, j: nat)
    requires j < |ls|
    ensures var r := Collapse(ls);
      exists k :: 0 <= k < |r| && r[k].first <= j <= r[k].last
  {
    CollapseShape(ls);
    RunsCover(Collapse(ls), j);
  }

  /** A run as the record the loop pushes, for a block starting at line `start`. */
  function ToItem(run: Run, start: nat, fp: string): BlameItem
  {
    BlameItem(run.author, run.timestamp, NatToString(start + run.first), NatToString(start + run.last), fp)
  }

  /** The records of a block's runs, in order. */
  function Render(runs: seq<Run>, start: nat, fp: string): (r: seq<BlameItem>)
    ensures |r| == |runs| && forall k :: 0 <= k < |runs| ==> r[k] == ToItem(runs[k], start, fp)
  {
    seq(|runs|, k requires 0 <= k < |runs| => ToItem(runs[k], start, fp))
  }

  /** Rendering one more run appends its record. */
  lemma RenderSnoc(runs: seq<Run>, run: Run, start: nat, fp: string)
    ensures Render(runs + [run], start, fp) == Render(runs, start, fp) + [ToItem(run, start, fp)]
  {
  }

  /** The record the loop builds from the cursor and the current line is the run's record. */
  lemma ItemOfRun(run: Run, start: nat, fp: string, lineitem: LineItem, linebreak: nat, lidx: nat)
    requires start <= linebreak && start <= lidx
    requires run == Run(lineitem.author, lineitem.timestamp, linebreak - start, lidx - start)
    ensures ToItem(run, start, fp) == BlameItem(lineitem.author, lineitem.timestamp, NatToString(linebreak), NatToString(lidx), fp)
  {
    assert start + run.first == linebreak && start + run.last == lidx;
  }

  /** An example: authors `A A A B B C` blamed from line 10 collapse to lines
      10-12, 13-14 and 15-15, each with its last line's timestamp. */
  lemma CollapseExample(fp: string)
    ensures var ls := [LineItem("A", "1"), LineItem("A", "2"), LineItem("A", "3"),
                       LineItem("B", "4"), LineItem("B", "5"), LineItem("C", "6")];
      Render(Collapse(ls), 10, fp)
      == [BlameItem("A", "3", "10", "12", fp), BlameItem("B", "5", "13", "14", fp), BlameItem("C", "6", "15", "15", fp)]
  {
    var ls := [LineItem("A", "1"), LineItem("A", "2"), LineItem("A", "3"),
               LineItem("B", "4"), LineItem("B", "5"), LineItem("C", "6")];
    assert Scan(ls, 5, 5) == [Run("C", "6", 5, 5)];
    assert Scan(ls, 3, 4) == [Run("B", "5", 3, 4)] + Scan(ls, 5, 5);
    assert Scan(ls, 3, 3) == Scan(ls, 3, 4);
    assert Scan(ls, 0, 2) == [Run("A", "3", 0, 2)] + Scan(ls, 3, 3);
    assert Scan(ls, 0, 1) == Scan(ls, 0, 2);
    assert Scan(ls, 0, 0) == Scan(ls, 0, 1);
    assert NatToString(10) == "10" && NatToString(12) == "12" && NatToString(13) == "13";
    assert NatToString(14) == "14" && NatToString(15) == "15";
  }

  /** What `generate_blame` makes of one range of one file, given the blame command's output
      (`None` when the command failed or its output was not UTF-8, both of which are logged and
      skipped). Empty output adds nothing; a range start that is not a `usize` panics, and so
      does a blame line with fewer than three words. */
  function RangeBlame(path: string, line: string, blameout: Option<string>, digest: string -> string)
    : Checked<seq<BlameItem>>
  {
    if blameout.None? then Ok([])
    else
      var blamelines := Lines(blameout.value);
      if blamelines == [] then Ok([])
      else
        match ParseUsize(Split(line, ',')[0])
        case None => Panic
        case Some(linenum) =>
          match LineItems(blamelines)
          case Panic => Panic
          case Ok(ls) =>
            LineItemsValues(blamelines);
            Ok(Render(Collapse(ls), linenum, digest(path)))
  }

  /** The collapse loop's state: runs `acc` are emitted, the open run starts at `lb` and has
      reached line `i`, and the emitted runs followed by what the loop still produces from here
      are the collapse. */
  ghost predicate CollapseState(ls: seq<LineItem>, acc: seq<Run>, lb: nat, i: nat)
  {
    OpenRun(ls, lb, i) && acc + Scan(ls, lb, i) == Collapse(ls)
  }

  /** The loop passes over a line whose successor has the same author: the open run grows. */
  lemma CollapseKeep(ls: seq<LineItem>, acc: seq<Run>, lb: nat, i: nat)
    requires CollapseState(ls, acc, lb, i) && i + 1 < |ls| && ls[i].author == ls[i + 1].author
    ensures CollapseState(ls, acc, lb, i + 1)
  {
    OpenRunStep(ls, lb, i);
    ScanSame(ls, lb, i);
  }

  /** The loop meets an author change after line `i`: the open run is closed there and a new
      one opens on the next line. */
  lemma CollapseCut(ls: seq<LineItem>, acc: seq<Run>, lb: nat, i: nat)
    requires CollapseState(ls, acc, lb, i) && i + 1 < |ls| && ls[i].author != ls[i + 1].author
    ensures CollapseState(ls, acc + [Run(ls[i].author, ls[i].timestamp, lb, i)], i + 1, i + 1)
  {
    OpenRunStep(ls, lb, i);
    ScanCons(ls, lb, i);
    assert acc + [Run(ls[i].author, ls[i].timestamp, lb, i)] + Scan(ls, i + 1, i + 1)
        == acc + ([Run(ls[i].author, ls[i].timestamp, lb, i)] + Scan(ls, i + 1, i + 1));
  }

  /** At the block's last line the loop emits the open run, which is the last of the collapse. */
  lemma CollapseEnd(ls: seq<LineItem>, acc: seq<Run>, lb: nat)
    requires |ls| >= 1 && CollapseState(ls, acc, lb, |ls| - 1)
    ensures acc + [Run(ls[|ls| - 1].author, ls[|ls| - 1].timestamp, lb, |ls| - 1)] == Collapse(ls)
  {
  }

  /** The collapse loop of `generate_blame` over the line map of a block of `count` lines
      starting at line `linenumint`: walk the lines with the `linebreak` cursor, emitting a record
      whenever the next line's author differs, and a last record for the final line. The map
      holds every line of the block, so the loop's `contains_key` tests always hold. */
  method CollapseBlock(lineauthormap: map<nat, LineItem>, linenumint: nat, count: nat, ghost ls: seq<LineItem>, fp: string)
    returns (blamevec: seq<BlameItem>)
    requires |ls| == count >= 1
    requires forall j :: 0 <= j < |ls| ==> linenumint + j in lineauthormap && lineauthormap[linenumint + j] == ls[j]
    ensures blamevec == Render(Collapse(ls), linenumint, fp)
  {
    blamevec := [];
    ghost var acc: seq<Run> := [];
    var linebreak := linenumint;
    for lidx := linenumint to linenumint + count - 1
      invariant linenumint <= linebreak
      invariant CollapseState(ls, acc, linebreak - linenumint, lidx - linenumint)
      invariant blamevec == Render(acc, linenumint, fp)
    {
      ghost var i := lidx - linenumint;
      var lineitem := lineauthormap[lidx];
      assert lineitem == ls[i] && lineauthormap[lidx + 1] == ls[i + 1];
      if lineitem.author == lineauthormap[lidx + 1].author {
        assert CollapseState(ls, acc, linebreak - linenumint, lidx + 1 - linenumint) by {
          CollapseKeep(ls, acc, linebreak - linenumint, i);
        }
        continue;
      }
      ghost var run := Run(lineitem.author, lineitem.timestamp, linebreak - linenumint, i);
      assert CollapseState(ls, acc + [run], lidx + 1 - linenumint, lidx + 1 - linenumint) by {
        CollapseCut(ls, acc, linebreak - linenumint, i);
      }
      assert Render(acc + [run], linenumint, fp)
          == blamevec + [BlameItem(lineitem.author, lineitem.timestamp, NatToString(linebreak), NatToString(lidx), fp)] by {
        RenderSnoc(acc, run, linenumint, fp);
        ItemOfRun(run, linenumint, fp, lineitem, linebreak, lidx);
      }
      blamevec := blamevec + [BlameItem(lineitem.author, lineitem.timestamp, NatToString(linebreak), NatToString(lidx), fp)];
      acc := acc + [run];
      linebreak := lidx + 1;
    }
    var lastidx := linenumint + count - 1;
    var lineitem := lineauthormap[lastidx];
    ghost var run := Run(lineitem.author, lineitem.timestamp, linebreak - linenumint, |ls| - 1);
    assert acc + [run] == Collapse(ls) by {
      CollapseEnd(ls, acc, linebreak - linenumint);
    }
    assert Render(acc + [run], linenumint, fp)
        == blamevec + [BlameItem(lineitem.author, lineitem.timestamp, NatToString(linebreak), NatToString(lastidx), fp)] by {
      RenderSnoc(acc, run, linenumint, fp);
      ItemOfRun(run, linenumint, fp, lineitem, linebreak, lastidx);
    }
    blamevec := blamevec + [BlameItem(lineitem.author, lineitem.timestamp, NatToString(linebreak), NatToString(lastidx), fp)];
  }

  /** The body of `generate_blame` for one range of one file: skip a failed command or empty
      output, parse the range start, build the line map, collapse it. */
  method BlameRange(path: string, line: string, blameout: Option<string>, digest: string -> string)
    returns (r: Checked<seq<BlameItem>>)
    ensures r == RangeBlame(path, line, blameout, digest)
  {
    if blameout.None? {
      return Ok([]);
    }
    var blamelines := Lines(blameout.value);
    if |blamelines| == 0 {
      return Ok([]);
    }
    var linenumvec := Split(line, ',');
    var linenum := linenumvec[0];
    var parsed := ParseUsize(linenum);
    if parsed.None? {
      return Panic;
    }
    var linenumint := parsed.value;
    var lineauthormap := ProcessBlameLines(blamelines, linenumint);
    LineItemsOk(blamelines);
    if lineauthormap.Panic? {
      return Panic;
    }
    LineItemsValues(blamelines);
    var blamevec := CollapseBlock(lineauthormap.value, linenumint, |blamelines|, LineItems(blamelines).value, digest(path));
    return Ok(blamevec);
  }

  // =======================================================================================
  // `generate_blame` over every file and range
  // =======================================================================================

  /** Two pieces of output in sequence; a panic in either aborts the run. */
  function Then<T>(a: Checked<seq<T>>, b: Checked<seq<T>>): (r: Checked<seq<T>>)
    ensures r.Ok? <==> a.Ok? && b.Ok?
    ensures r.Ok? ==> r.value == a.value + b.value
  {
    if a.Panic? || b.Panic? then Panic else Ok(a.value + b.value)
  }

  /** The records of one file's ranges, in order, each range blamed through `blame(path, range)`. */
  function FileBlame(path: string, lines: seq<string>, blame: (string, string) -> Option<string>,
                     digest: string -> string): Checked<seq<BlameItem>>
    decreases |lines|
  {
    if lines == [] then Ok([])
    else
      Then(FileBlame(path, lines[..|lines| - 1], blame, digest),
           RangeBlame(path, lines[|lines| - 1], blame(path, lines[|lines| - 1]), digest))
  }

  /** The records of every file, in the line map's iteration order. */
  function AllBlame(linemap: seq<(string, seq<string>)>, blame: (string, string) -> Option<string>,
                    digest: string -> string): Checked<seq<BlameItem>>
    decreases |linemap|
  {
    if linemap == [] then Ok([])
    else
      var entry := linemap[|linemap| - 1];
      Then(AllBlame(linemap[..|linemap| - 1], blame, digest), FileBlame(entry.0, entry.1, blame, digest))
  }

  /** The inner loop of `generate_blame`: every range of one file, in order. */
  method BlameFile(path: string, linevec: seq<string>, blame: (string, string) -> Option<string>,
                   digest: string -> string) returns (r: Checked<seq<BlameItem>>)
    ensures r == FileBlame(path, linevec, blame, digest)
  {
    var blamevec: seq<BlameItem> := [];
    for l := 0 to |linevec|
      invariant FileBlame(path, linevec[..l], blame, digest) == Ok(blamevec)
    {
      var line := linevec[l];
      assert linevec[..l + 1][..l] == linevec[..l];
      var items := BlameRange(path, line, blame(path, line), digest);
      if items.Panic? {
        FileBlamePanicStays(path, linevec, l + 1, blame, digest);
        return Panic;
      }
      blamevec := blamevec + items.value;
    }
    assert linevec[..|linevec|] == linevec;
    return Ok(blamevec);
  }

  /** `generate_blame`: every range of every file, its output appended to one vector. The
      `git blame` call is the oracle `blame`, and the files come in the map's iteration order. */
  method GenerateBlame(linemap: seq<(string, seq<string>)>, blame: (string, string) -> Option<string>,
                       digest: string -> string) returns (r: Checked<seq<BlameItem>>)
    ensures r == AllBlame(linemap, blame, digest)
  {
    var blamevec: seq<BlameItem> := [];
    for e := 0 to |linemap|
      invariant AllBlame(linemap[..e], blame, digest) == Ok(blamevec)
    {
      var (path, linevec) := linemap[e];
      assert linemap[..e + 1][..e] == linemap[..e];
      var items := BlameFile(path, linevec, blame, digest);
      if items.Panic? {
        AllBlamePanicStays(linemap, e + 1, blame, digest);
        return Panic;
      }
      blamevec := blamevec + items.value;
    }
    assert linemap[..|linemap|] == linemap;
    return Ok(blamevec);
  }

  /** A panic in a prefix of a file's ranges is a panic for the file. */
  lemma {:induction false} FileBlamePanicStays(path: string, lines: seq<string>, n: nat,
                                               blame: (string, string) -> Option<string>, digest: string -> string)
    requires n <= |lines| && FileBlame(path, lines[..n], blame, digest).Panic?
    ensures FileBlame(path, lines, blame, digest).Panic?
    decreases |lines| - n
  {
    if n < |lines| {
      assert lines[..n + 1][..n] == lines[..n];
      FileBlamePanicStays(path, lines, n + 1, blame, digest);
    } else {
      assert lines[..n] == lines;
    }
  }

  /** A panic in a prefix of the files is a panic for the whole run. */
  lemma {:induction false} AllBlamePanicStays(linemap: seq<(string, seq<string>)>, n: nat,
                                              blame: (string, string) -> Option<string>, digest: string -> string)
    requires n <= |linemap| && AllBlame(linemap[..n], blame, digest).Panic?
    ensures AllBlame(linemap, blame, digest).Panic?
    decreases |linemap| - n
  {
    if n < |linemap| {
      assert linemap[..n + 1][..n] == linemap[..n];
      AllBlamePanicStays(linemap, n + 1, blame, digest);
    } else {
      assert linemap[..n] == linemap;
    }
  }

  /** Sequencing is associative. */
  lemma ThenAssoc<T>(a: Checked<seq<T>>, b: Checked<seq<T>>, c: Checked<seq<T>>)
    ensures Then(Then(a, b), c) == Then(a, Then(b, c))
  {
    if a.Ok? && b.Ok? && c.Ok? {
      assert (a.value + b.value) + c.value == a.value + (b.value + c.value);
    }
  }

  /** A file's ranges can be blamed in two consecutive groups. */
  lemma {:induction false} FileBlameAppend(path: string, a: seq<string>, b: seq<string>,
                                           blame: (string, string) -> Option<string>, digest: string -> string)
    ensures FileBlame(path, a + b, blame, digest)
         == Then(FileBlame(path, a, blame, digest), FileBlame(path, b, blame, digest))
    decreases |b|
  {
    var fa := FileBlame(path, a, blame, digest);
    if b == [] {
      assert a + b == a;
      if fa.Ok? {
        assert fa.value + [] == fa.value;
      }
    } else {
      var b' := b[..|b| - 1];
      var x := b[|b| - 1];
      assert (a + b)[..|a + b| - 1] == a + b' && (a + b)[|a + b| - 1] == x;
      FileBlameAppend(path, a, b', blame, digest);
      ThenAssoc(fa, FileBlame(path, b', blame, digest), RangeBlame(path, x, blame(path, x), digest));
    }
  }

  /** A range whose blame output is empty contributes nothing, and the records of the other
      ranges of the file are the same with or without it. */
  lemma EmptyBlameAddsNothing(path: string, a: seq<string>, line: string, b: seq<string>,
                              blame: (string, string) -> Option<string>, digest: string -> string)
    requires blame(path, line).None? || Lines(blame(path, line).value) == []
    ensures RangeBlame(path, line, blame(path, line), digest) == Ok([])
    ensures FileBlame(path, a + [line] + b, blame, digest) == FileBlame(path, a + b, blame, digest)
  {
    var fa := FileBlame(path, a, blame, digest);
    var fb := FileBlame(path, b, blame, digest);
    assert RangeBlame(path, line, blame(path, line), digest) == Ok([]);
    assert FileBlame(path, [line], blame, digest) == Ok([]) by {
      assert [line][..0] == [];
    }
    assert FileBlame(path, a + [line] + b, blame, digest) == Then(Then(fa, Ok([])), fb) by {
      FileBlameAppend(path, a + [line], b, blame, digest);
      FileBlameAppend(path, a, [line], blame, digest);
    }
    assert FileBlame(path, a + b, blame, digest) == Then(fa, fb) by {
      FileBlameAppend(path, a, b, blame, digest);
    }
    ThenEmpty(fa);
  }

  /** Sequencing with no records changes nothing. */
  lemma ThenEmpty<T>(a: Checked<seq<T>>)
    ensures Then(a, Ok([])) == a
  {
    if a.Ok? {
      assert a.value + [] == a.value;
    }
  }
}
