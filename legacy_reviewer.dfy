/** The older attribution engine of `devprofiler/src/reviewer.rs`. Its hunk-header extractor and
    slug splitter are the same code as in the newer copies (modules `GitOps` and `Reviewer`). It
    differs in two places: the numstat filter reads deletions from their own column and aborts
    on a count that does not parse, and the blame step emits one record per change of author,
    at the first line of each run, instead of collapsing runs into ranges. */
module LegacyReviewer {
  import opened Results
  import opened Text
  import opened Seqs
  import opened GitOps

  // =======================================================================================
  // Change-set filter: `get_excluded_files`
  // =======================================================================================

  /** Both counts of a row parse as `i32`. */
  predicate NumericCounts(line: string)
    requires HasStatFields(line)
  {
    var fields := Split(line, '\t');
    ParseI32(fields[0]).Some? && ParseI32(fields[1]).Some?
  }

  /** The row a numstat line becomes: additions from field 0, deletions from field 1; either
      failing to parse reaches an `expect`. */
  function StrictStatLine(line: string): (r: Checked<StatItem>)
    requires HasStatFields(line)
    ensures r.Ok? <==> NumericCounts(line)
  {
    var fields := Split(line, '\t');
    match (ParseI32(fields[0]), ParseI32(fields[1]))
    case (Some(a), Some(d)) => Ok(StatItem(fields[2], a, d))
    case _ => Panic
  }

  /** The rows of the lines with at least three fields, in order, or a panic at the first such
      line whose counts do not parse. */
  function StrictStatItems(lines: seq<string>): Checked<seq<StatItem>>
    decreases |lines|
  {
    if lines == [] then Ok([])
    else
      var init := StrictStatItems(lines[..|lines| - 1]);
      var last := lines[|lines| - 1];
      if init.Panic? then Panic
      else if !HasStatFields(last) then init
      else
        var row := StrictStatLine(last);
        if row.Panic? then Panic else Ok(init.value + [row.value])
  }

  /** The parse succeeds exactly when every line with three fields has numeric counts. */
  lemma {:induction false} StrictStatItemsOk(lines: seq<string>)
    ensures StrictStatItems(lines).Ok?
        <==> forall i :: 0 <= i < |lines| && HasStatFields(lines[i]) ==> NumericCounts(lines[i])
    decreases |lines|
  {
    if lines != [] {
      var init := lines[..|lines| - 1];
      StrictStatItemsOk(init);
      assert forall i :: 0 <= i < |init| ==> init[i] == lines[i];
    }
  }

  /** When it succeeds, there is one row per line with three fields, in order, carrying that
      line's path and both of its counts. */
  lemma {:induction false} StrictStatItemsValues(lines: seq<string>)
    requires StrictStatItems(lines).Ok?
    ensures |StrictStatItems(lines).value| == |Filter(HasStatFields, lines)|
    ensures forall k :: 0 <= k < |StrictStatItems(lines).value| ==>
      StrictStatLine(Filter(HasStatFields, lines)[k]) == Ok(StrictStatItems(lines).value[k])
    decreases |lines|
  {
    if lines != [] {
      StrictStatItemsValues(lines[..|lines| - 1]);
    }
  }

  /** A row of two printed counts keeps both: deletions come from their own column. */
  lemma NumericRow(a: nat, d: nat, path: string)
    requires a <= I32Max && d <= I32Max && '\t' !in path
    ensures HasStatFields(NatToString(a) + "\t" + NatToString(d) + "\t" + path)
    ensures StrictStatLine(NatToString(a) + "\t" + NatToString(d) + "\t" + path) == Ok(StatItem(path, a, d))
  {
    var sa, sd := NatToString(a), NatToString(d);
    NoTabInNumber(a);
    NoTabInNumber(d);
    SplitAtFirst(sa, '\t', sd + "\t" + path);
    SplitAtFirst(sd, '\t', path);
    TabRow(sa, sd, path);
    ParseI32Printed(a);
    ParseI32Printed(d);
  }

  /** The row text regrouped around its first tab. */
  lemma TabRow(sa: string, sd: string, path: string)
    ensures sa + "\t" + sd + "\t" + path == sa + ['\t'] + (sd + ['\t'] + path)
    ensures sd + "\t" + path == sd + ['\t'] + path
  {
  }

  /** A printed number holds no tab. */
  lemma NoTabInNumber(n: nat)
    ensures '\t' !in NatToString(n)
  {
    var s := NatToString(n);
    NatToStringDigits(n);
    forall i | 0 <= i < |s| ensures s[i] != '\t' { assert IsDigit(s[i]); }
  }

  /** A binary file's `-\t-\tpath` row aborts the parse here, where the newer copies count it
      as zero. */
  lemma BinaryRowPanics(path: string)
    requires '\t' !in path
    ensures HasStatFields("-\t-\t" + path)
    ensures StrictStatLine("-\t-\t" + path) == Panic
  {
    BinaryRowCountsZero(path);
    SplitAtFirst("-", '\t', "-\t" + path);
    assert "-\t-\t" + path == "-" + ['\t'] + ("-\t" + path);
  }

  /** With few additions and many deletions the two copies disagree: the newer one, reading
      the additions column twice, keeps the file, while this one excludes it. */
  lemma CopiesDisagreeOnDeletions(a: nat, d: nat, path: string)
    requires a <= LineThreshold / 2 && d <= I32Max && a + d > LineThreshold && '\t' !in path
    ensures var row := NatToString(a) + "\t" + NatToString(d) + "\t" + path;
      HasStatFields(row) && !IsBig(StatLine(row)) && StrictStatLine(row).Ok? && IsBig(StrictStatLine(row).value)
  {
    NoTabInNumber(d);
    EffectiveThreshold(a, NatToString(d), path);
    NumericRow(a, d, path);
  }

  /** A panic among the first lines is a panic for the whole output. */
  lemma {:induction false} StrictStatPanicStays(lines: seq<string>, n: nat)
    requires n <= |lines| && StrictStatItems(lines[..n]).Panic?
    ensures StrictStatItems(lines).Panic?
    decreases |lines| - n
  {
    if n < |lines| {
      assert lines[..n + 1][..n] == lines[..n];
      StrictStatPanicStays(lines, n + 1);
    } else {
      assert lines[..n] == lines;
    }
  }

  /** The parse loop of `get_excluded_files`. */
  method ParseStatLines(statstr: string) returns (r: Checked<seq<StatItem>>)
    ensures r == StrictStatItems(Split(statstr, '\n'))
  {
    var statlines := Split(statstr, '\n');
    var statvec: seq<StatItem> := [];
    for i := 0 to |statlines|
      invariant StrictStatItems(statlines[..i]) == Ok(statvec)
    {
      assert statlines[..i + 1][..i] == statlines[..i];
      var statitems := Split(statlines[i], '\t');
      if |statitems| >= 3 {
        var additions := ParseI32(statitems[0]);
        var deletions := ParseI32(statitems[1]);
        if additions.None? || deletions.None? {
          StrictStatPanicStays(statlines, i + 1);
          return Panic;
        }
        statvec := statvec + [StatItem(statitems[2], additions.value, deletions.value)];
      }
    }
    assert statlines[..|statlines|] == statlines;
    return Ok(statvec);
  }

  /** `get_excluded_files`: the numstat output, or `None` when `git` could not be run or its
      output was not UTF-8. The partition is the one of the newer copies. */
  method LegacyExcludedFiles(statOut: Option<string>) returns (r: Checked<Option<(seq<StatItem>, seq<StatItem>)>>)
    ensures statOut.None? ==> r == Ok(None)
    ensures statOut.Some? ==> (r.Ok? <==> StrictStatItems(Split(statOut.value, '\n')).Ok?)
    ensures statOut.Some? && r.Ok? ==>
      r.value == Some(SizeSplit(StrictStatItems(Split(statOut.value, '\n')).value))
  {
    if statOut.None? {
      return Ok(None);
    }
    var statvec := ParseStatLines(statOut.value);
    if statvec.Panic? {
      return Panic;
    }
    var bigfiles, smallfiles := PartitionBySize(statvec.value);
    return Ok(Some((bigfiles, smallfiles)));
  }

  // =======================================================================================
  // Blame emission: the range loop of `generate_blame`
  // =======================================================================================

  /** A record as the older engine emits it: a hash of the blamed text, the author, the
      timestamp, the decimal line number and the hashed path. */
  datatype HunkBlame = HunkBlame(hunkhash: string, author: string, timestamp: string, linenum: string, filepath: string)

  /** Where `idx` stands when the hunk text is cut: on the author's word, or, when the
      timestamp word was empty, on the word found by skipping after it. */
  function HunkOffset(words: seq<string>): nat
    requires |words| >= 3
  {
    var idx1 := if words[1] == "" then SkipEmpty(words, 1) else 1;
    if words[2] == "" then SkipEmpty(words, idx1 + 1) else idx1
  }

  /** `wordvec[idx+3..].join(" ")`, or `None` where the slice start is past the end, which
      panics. */
  function HunkText(ln: string): (r: Option<string>)
    ensures r.Some? ==> |Split(ln, ' ')| >= 3
  {
    var words := Split(ln, ' ');
    if |words| < 3 then None
    else
      var idx := HunkOffset(words);
      if idx + 3 <= |words| then Some(Join(words[idx + 3..], ' ')) else None
  }

  /** What the loop reads off one line: the parsed author and timestamp, or a panic for a
      line of fewer than three words, and the hunk text, if it can be cut. */
  datatype LineView = LineView(item: Checked<LineItem>, hunk: Option<string>)

  /** The view of every line of a range. */
  function Views(lines: seq<string>): (r: seq<LineView>)
    ensures |r| == |lines|
  {
    if lines == [] then []
    else Views(lines[..|lines| - 1]) + [ViewOf(lines[|lines| - 1])]
  }

  /** The view of one line. */
  function ViewOf(ln: string): LineView
  {
    LineView(BlameLine(ln), HunkText(ln))
  }

  /** The view of line `i` is read off line `i` alone. */
  lemma {:induction false} ViewsAt(lines: seq<string>, i: nat)
    requires i < |lines|
    ensures Views(lines)[i] == ViewOf(lines[i])
    decreases |lines|
  {
    if i < |lines| - 1 {
      ViewsAt(lines[..|lines| - 1], i);
    }
  }

  /** The cleaned author of line `i`, as compared against `prev_author`. */
  function AuthorAt(views: seq<LineView>, i: nat): string
    requires i < |views|
  {
    match views[i].item
    case Ok(it) => it.author
    case Panic => ""
  }

  /** Line `i` starts a new run: its author differs from the previous line's, and the line
      before the first counts as having the empty author. */
  predicate RunStart(views: seq<LineView>, i: nat)
    requires i < |views|
  {
    AuthorAt(views, i) != (if i == 0 then "" else AuthorAt(views, i - 1))
  }

  /** The record for line `off` of a range starting at `start`: the cut-off text, hashed; a
      missing slice or an unparsable start panics. */
  function EmitAt(v: LineView, off: nat, start: Option<int>, fp: string, digest: string -> string)
    : (r: Checked<HunkBlame>)
    requires v.item.Ok?
    ensures r.Ok? <==> v.hunk.Some? && start.Some?
    ensures r.Ok? ==> r.value.author == v.item.value.author && r.value.linenum == IntToString(start.value + off)
  {
    match v.hunk
    case None => Panic
    case Some(h) =>
      match start
      case None => Panic
      case Some(s) => Ok(HunkBlame(digest(h), v.item.value.author, v.item.value.timestamp, IntToString(s + off), fp))
  }

  /** The records of the first `n` lines: a panic when one of them has fewer than three words,
      otherwise a record for each run start. */
  function Emissions(views: seq<LineView>, n: nat, start: Option<int>, fp: string, digest: string -> string)
    : Checked<seq<HunkBlame>>
    requires n <= |views|
  {
    if n == 0 then Ok([])
    else
      var init := Emissions(views, n - 1, start, fp, digest);
      if init.Panic? || views[n - 1].item.Panic? then Panic
      else if !RunStart(views, n - 1) then init
      else
        var e := EmitAt(views[n - 1], n - 1, start, fp, digest);
        if e.Panic? then Panic else Ok(init.value + [e.value])
  }

  /** The offsets of the run starts among the first `n` lines, in order. */
  function RunStarts(views: seq<LineView>, n: nat): (r: seq<nat>)
    requires n <= |views|
    ensures forall k :: 0 <= k < |r| ==> r[k] < n
  {
    if n == 0 then [] else RunStarts(views, n - 1) + (if RunStart(views, n - 1) then [n - 1] else [])
  }

  /** What one range of blame output yields: nothing when `git blame` failed, otherwise the
      emissions of all its lines, the range start read from the text before the first comma. */
  function OldRangeBlame(path: string, line: string, blameout: Option<string>, digest: string -> string)
    : Checked<seq<HunkBlame>>
  {
    if blameout.None? then Ok([])
    else
      var lines := Lines(blameout.value);
      Emissions(Views(lines), |lines|, ParseI32(Split(line, ',')[0]), digest(path), digest)
  }

  /** The per-line loop of the older `generate_blame` for one range: `prev_author` starts empty
      and `lnum` at -1; a line whose author repeats the previous one is skipped. */
  method OldBlameRange(path: string, line: string, blameout: Option<string>, digest: string -> string)
    returns (r: Checked<seq<HunkBlame>>)
    ensures r == OldRangeBlame(path, line, blameout, digest)
  {
    var linenumvec := Split(line, ',');
    var linenum := linenumvec[0];
    if blameout.None? {
      return Ok([]);
    }
    r := BlameRangeLines(Lines(blameout.value), linenum, digest(path), digest);
  }

  /** The loop itself, over the lines of `git blame` output for one range, with `linenum` the
      range's start as text and `fp` the digest of the file path. */
  method BlameRangeLines(blamelines: seq<string>, linenum: string, fp: string, digest: string -> string)
    returns (r: Checked<seq<HunkBlame>>)
    ensures r == Emissions(Views(blamelines), |blamelines|, ParseI32(linenum), fp, digest)
  {
    ghost var views := Views(blamelines);
    ghost var start := ParseI32(linenum);
    var blamevec: seq<HunkBlame> := [];
    var prevAuthor := "";
    var lnum := -1;
    for i := 0 to |blamelines|
      invariant lnum == i - 1
      invariant prevAuthor == if i == 0 then "" else AuthorAt(views, i - 1)
      invariant Emissions(views, i, start, fp, digest) == Ok(blamevec)
    {
      lnum := lnum + 1;
      var item := ReadItem(blamelines, i);
      if item.Panic? {
        EmissionsItemPanic(views, i, start, fp, digest);
        return Panic;
      }
      var authorstr := item.value.author;
      assert AuthorAt(views, i) == authorstr;
      if authorstr == prevAuthor {
        EmissionsSkip(views, i, start, fp, digest, blamevec);
        continue;
      }
      prevAuthor := authorstr;
      var hunkstr := ReadHunk(blamelines, i);
      var delidx := ParseI32(linenum);
      if hunkstr.None? || delidx.None? {
        EmissionsEmitPanic(views, i, start, fp, digest);
        return Panic;
      }
      var rec := HunkBlame(digest(hunkstr.value), authorstr, item.value.timestamp,
                           IntToString(delidx.value + lnum), fp);
      EmissionsEmit(views, i, start, fp, digest, blamevec, rec);
      blamevec := blamevec + [rec];
    }
    return Ok(blamevec);
  }

  /** The author and timestamp the loop parses from line `i`. */
  method ReadItem(blamelines: seq<string>, i: nat) returns (item: Checked<LineItem>)
    requires i < |blamelines|
    ensures item == Views(blamelines)[i].item
  {
    ViewsAt(blamelines, i);
    item := ScanBlameLine(blamelines[i]);
  }

  /** The hunk text the loop cuts from line `i`. */
  method ReadHunk(blamelines: seq<string>, i: nat) returns (hunk: Option<string>)
    requires i < |blamelines|
    ensures hunk == Views(blamelines)[i].hunk
  {
    ViewsAt(blamelines, i);
    hunk := HunkText(blamelines[i]);
  }

  /** A line of fewer than three words aborts the range. */
  lemma EmissionsItemPanic(views: seq<LineView>, i: nat, start: Option<int>, fp: string, digest: string -> string)
    requires i < |views| && views[i].item.Panic?
    ensures Emissions(views, |views|, start, fp, digest).Panic?
  {
    EmissionsPanicStays(views, i + 1, start, fp, digest);
  }

  /** A line whose author repeats the previous one adds no record. */
  lemma EmissionsSkip(views: seq<LineView>, i: nat, start: Option<int>, fp: string, digest: string -> string,
                      acc: seq<HunkBlame>)
    requires i < |views| && Emissions(views, i, start, fp, digest) == Ok(acc)
    requires views[i].item.Ok? && AuthorAt(views, i) == (if i == 0 then "" else AuthorAt(views, i - 1))
    ensures Emissions(views, i + 1, start, fp, digest) == Ok(acc)
  {
  }

  /** A run start whose text cannot be cut, or whose range start does not parse, aborts the
      range. */
  lemma EmissionsEmitPanic(views: seq<LineView>, i: nat, start: Option<int>, fp: string, digest: string -> string)
    requires i < |views| && views[i].item.Ok? && RunStart(views, i)
    requires views[i].hunk.None? || start.None?
    ensures Emissions(views, |views|, start, fp, digest).Panic?
  {
    EmissionsPanicStays(views, i + 1, start, fp, digest);
  }

  /** One more record at a run start whose record can be built. */
  lemma EmissionsEmit(views: seq<LineView>, i: nat, start: Option<int>, fp: string, digest: string -> string,
                      acc: seq<HunkBlame>, rec: HunkBlame)
    requires i < |views| && Emissions(views, i, start, fp, digest) == Ok(acc)
    requires views[i].item.Ok? && AuthorAt(views, i) != (if i == 0 then "" else AuthorAt(views, i - 1))
    requires views[i].hunk.Some? && start.Some?
    requires rec == HunkBlame(digest(views[i].hunk.value), views[i].item.value.author, views[i].item.value.timestamp,
                              IntToString(start.value + i), fp)
    ensures Emissions(views, i + 1, start, fp, digest) == Ok(acc + [rec])
  {
  }

  /** A panic among the first lines is a panic for the range. */
  lemma {:induction false} EmissionsPanicStays(views: seq<LineView>, i: nat, start: Option<int>, fp: string,
                                               digest: string -> string)
    requires i <= |views| && Emissions(views, i, start, fp, digest).Panic?
    ensures Emissions(views, |views|, start, fp, digest).Panic?
    decreases |views| - i
  {
    if i < |views| {
      EmissionsPanicStays(views, i + 1, start, fp, digest);
    }
  }

  /** Each of the first `n` lines has at least three words. */
  predicate LinesParse(views: seq<LineView>, n: nat)
    requires n <= |views|
  {
    forall i :: 0 <= i < n ==> views[i].item.Ok?
  }

  /** At each run start among the first `n` lines the hunk text can be cut and the range start
      parses. */
  predicate StartsEmit(views: seq<LineView>, n: nat, start: Option<int>)
    requires n <= |views|
  {
    forall i :: 0 <= i < n && RunStart(views, i) ==> views[i].hunk.Some? && start.Some?
  }

  /** The range yields records exactly when every line has three words and, at every run
      start, the hunk text can be cut and the range start parses. */
  lemma {:induction false} EmissionsOk(views: seq<LineView>, n: nat, start: Option<int>, fp: string,
                                       digest: string -> string)
    requires n <= |views|
    ensures Emissions(views, n, start, fp, digest).Ok? <==> LinesParse(views, n) && StartsEmit(views, n, start)
  {
    if n > 0 {
      EmissionsOk(views, n - 1, start, fp, digest);
      EmissionsOkStep(views, n, start, fp, digest);
      LinesParseStep(views, n);
      StartsEmitStep(views, n, start);
    }
  }

  /** One line more: the range still succeeds when that line has three words and, if it starts a
      run, its record can be built. */
  lemma EmissionsOkStep(views: seq<LineView>, n: nat, start: Option<int>, fp: string, digest: string -> string)
    requires 0 < n <= |views|
    ensures Emissions(views, n, start, fp, digest).Ok?
        <==> Emissions(views, n - 1, start, fp, digest).Ok? && views[n - 1].item.Ok?
             && (RunStart(views, n - 1) ==> views[n - 1].hunk.Some? && start.Some?)
  {
  }

  /** One line more: every line so far has three words exactly when the earlier ones do and the
      new one does. */
  lemma LinesParseStep(views: seq<LineView>, n: nat)
    requires 0 < n <= |views|
    ensures LinesParse(views, n) <==> LinesParse(views, n - 1) && views[n - 1].item.Ok?
  {
  }

  /** One line more: every run start so far can be emitted exactly when the earlier ones can and,
      if the new line starts a run, its text can be cut and the range start parses. */
  lemma StartsEmitStep(views: seq<LineView>, n: nat, start: Option<int>)
    requires 0 < n <= |views|
    ensures StartsEmit(views, n, start)
        <==> StartsEmit(views, n - 1, start) && (RunStart(views, n - 1) ==> views[n - 1].hunk.Some? && start.Some?)
  {
  }

  /** Each record is the one of a run start, in order of the lines. */
  lemma {:induction false} EmissionsValues(views: seq<LineView>, n: nat, start: Option<int>, fp: string,
                                           digest: string -> string)
    requires n <= |views| && Emissions(views, n, start, fp, digest).Ok?
    ensures |Emissions(views, n, start, fp, digest).value| == |RunStarts(views, n)|
    ensures forall k :: 0 <= k < |RunStarts(views, n)| ==>
      RunStarts(views, n)[k] < n && views[RunStarts(views, n)[k]].item.Ok?
      && EmitAt(views[RunStarts(views, n)[k]], RunStarts(views, n)[k], start, fp, digest)
         == Ok(Emissions(views, n, start, fp, digest).value[k])
  {
    if n > 0 {
      EmissionsSnoc(views, n, start, fp, digest);
      EmissionsValues(views, n - 1, start, fp, digest);
      var e0, e := Emissions(views, n - 1, start, fp, digest).value, Emissions(views, n, start, fp, digest).value;
      var rs0, rs := RunStarts(views, n - 1), RunStarts(views, n);
      forall k | 0 <= k < |rs|
        ensures rs[k] < n && views[rs[k]].item.Ok? && EmitAt(views[rs[k]], rs[k], start, fp, digest) == Ok(e[k])
      {
        if k < |rs0| {
          assert rs[k] == rs0[k] && e[k] == e0[k];
        }
      }
    }
  }

  /** One line more: a run start appends its record, any other line adds nothing. */
  lemma EmissionsSnoc(views: seq<LineView>, n: nat, start: Option<int>, fp: string, digest: string -> string)
    requires 0 < n <= |views| && Emissions(views, n, start, fp, digest).Ok?
    ensures Emissions(views, n - 1, start, fp, digest).Ok? && views[n - 1].item.Ok?
    ensures var e0, e := Emissions(views, n - 1, start, fp, digest).value, Emissions(views, n, start, fp, digest).value;
            if RunStart(views, n - 1)
            then EmitAt(views[n - 1], n - 1, start, fp, digest).Ok?
                 && e == e0 + [EmitAt(views[n - 1], n - 1, start, fp, digest).value]
                 && RunStarts(views, n) == RunStarts(views, n - 1) + [n - 1]
            else e == e0 && RunStarts(views, n) == RunStarts(views, n - 1)
  {
  }

  /** The run starts are exactly the lines whose author differs from the previous line's, in
      strictly increasing order. */
  lemma {:induction false} RunStartsBelow(views: seq<LineView>, n: nat)
    requires n <= |views|
    ensures forall o: nat :: o in RunStarts(views, n) <==> o < n && RunStart(views, o)
    ensures forall k, k' :: 0 <= k && k' == k + 1 && k' < |RunStarts(views, n)| ==>
      RunStarts(views, n)[k] < RunStarts(views, n)[k']
  {
    if n > 0 {
      RunStartsBelow(views, n - 1);
      var rs0 := RunStarts(views, n - 1);
      var rs := RunStarts(views, n);
      if RunStart(views, n - 1) {
        assert rs == rs0 + [n - 1];
        forall k, k' | 0 <= k && k' == k + 1 && k' < |rs| ensures rs[k] < rs[k'] {
          if k' < |rs0| {
            assert rs[k] == rs0[k] && rs[k'] == rs0[k'];
          } else {
            assert rs[k] in rs0;
          }
        }
      } else {
        assert rs == rs0;
      }
    }
  }

  /** The author of the most recent run start among the first `n` lines, or the empty author
      when there is none: what `prev_author` holds. */
  function LastEmittedAuthor(views: seq<LineView>, n: nat): string
    requires n <= |views|
  {
    var rs := RunStarts(views, n);
    if rs == [] then "" else AuthorAt(views, rs[|rs| - 1])
  }

  /** Every line carries the author of the most recent run start, or the empty author before
      the first one. */
  lemma {:induction false} RunStartsCarry(views: seq<LineView>, n: nat)
    requires 0 < n <= |views|
    ensures AuthorAt(views, n - 1) == LastEmittedAuthor(views, n)
  {
    var rs0 := RunStarts(views, n - 1);
    if RunStart(views, n - 1) {
      assert RunStarts(views, n) == rs0 + [n - 1];
    } else {
      assert RunStarts(views, n) == rs0;
      if n > 1 {
        RunStartsCarry(views, n - 1);
      }
    }
  }

  /** Consecutive run starts have different authors: one record per maximal run of one
      author. */
  lemma {:induction false} RunStartsAuthors(views: seq<LineView>, n: nat)
    requires n <= |views|
    ensures AuthorsAlternate(views, RunStarts(views, n))
  {
    if n > 0 {
      RunStartsAuthors(views, n - 1);
      if RunStart(views, n - 1) {
        RunStartsAuthorsGrow(views, n);
      } else {
        assert RunStarts(views, n) == RunStarts(views, n - 1);
      }
    }
  }

  /** Consecutive entries of `rs` name lines of different authors. */
  predicate AuthorsAlternate(views: seq<LineView>, rs: seq<nat>)
    decreases |rs|
  {
    |rs| <= 1 ||
    (rs[|rs| - 2] < |views| && rs[|rs| - 1] < |views| &&
     AuthorAt(views, rs[|rs| - 2]) != AuthorAt(views, rs[|rs| - 1]) &&
     AuthorsAlternate(views, rs[..|rs| - 1]))
  }

  /** A new run start differs in author from the one before it. */
  lemma RunStartsAuthorsGrow(views: seq<LineView>, n: nat)
    requires 0 < n <= |views| && RunStart(views, n - 1)
    requires AuthorsAlternate(views, RunStarts(views, n - 1))
    ensures AuthorsAlternate(views, RunStarts(views, n))
  {
    var rs0 := RunStarts(views, n - 1);
    RunStartsSnoc(views, n);
    LastStartDiffers(views, n);
    AlternateSnoc(views, rs0, n - 1);
  }

  /** A run start is appended to the run starts before it. */
  lemma RunStartsSnoc(views: seq<LineView>, n: nat)
    requires 0 < n <= |views| && RunStart(views, n - 1)
    ensures RunStarts(views, n) == RunStarts(views, n - 1) + [n - 1]
  {
  }

  /** The run start before a new one has a different author. */
  lemma LastStartDiffers(views: seq<LineView>, n: nat)
    requires 0 < n <= |views| && RunStart(views, n - 1)
    ensures var rs0 := RunStarts(views, n - 1);
      rs0 != [] ==> rs0[|rs0| - 1] < |views| && AuthorAt(views, rs0[|rs0| - 1]) != AuthorAt(views, n - 1)
  {
    if n > 1 {
      RunStartsCarry(views, n - 1);
    }
  }

  /** Appending a line whose author differs from the last one's keeps the alternation. */
  lemma AlternateSnoc(views: seq<LineView>, rs: seq<nat>, x: nat)
    requires AuthorsAlternate(views, rs) && x < |views|
    requires rs != [] ==> rs[|rs| - 1] < |views| && AuthorAt(views, rs[|rs| - 1]) != AuthorAt(views, x)
    ensures AuthorsAlternate(views, rs + [x])
  {
    var rx := rs + [x];
    assert rx[..|rx| - 1] == rs;
    if rs != [] {
      assert rx[|rx| - 2] == rs[|rs| - 1] && rx[|rx| - 1] == x;
    }
  }

  /** Because `prev_author` starts empty, a first line whose cleaned author is empty is never
      emitted. */
  lemma LeadingEmptyAuthorSkipped(views: seq<LineView>)
    requires |views| > 0 && AuthorAt(views, 0) == ""
    ensures 0 !in RunStarts(views, |views|)
  {
    RunStartsBelow(views, |views|);
  }

  /** The records of one range: one per run start, carrying that line's author and the line
      number `start + offset`. */
  lemma EmissionsShape(views: seq<LineView>, start: Option<int>, fp: string, digest: string -> string)
    requires Emissions(views, |views|, start, fp, digest).Ok?
    ensures |Emissions(views, |views|, start, fp, digest).value| == |RunStarts(views, |views|)|
    ensures Emissions(views, |views|, start, fp, digest).value != [] ==> start.Some?
    ensures var items := Emissions(views, |views|, start, fp, digest).value;
            var rs := RunStarts(views, |views|);
            forall k :: 0 <= k < |items| ==>
              rs[k] < |views| && RunStart(views, rs[k])
              && items[k].author == AuthorAt(views, rs[k])
              && items[k].linenum == IntToString(start.value + rs[k])
  {
    var items := Emissions(views, |views|, start, fp, digest).value;
    var rs := RunStarts(views, |views|);
    assert |items| == |rs| by { EmissionsValues(views, |views|, start, fp, digest); }
    forall k | 0 <= k < |items|
      ensures rs[k] < |views| && RunStart(views, rs[k])
              && items[k].author == AuthorAt(views, rs[k])
              && start.Some? && items[k].linenum == IntToString(start.value + rs[k])
    {
      EmissionsAt(views, start, fp, digest, k);
    }
    if items != [] {
      EmissionsAt(views, start, fp, digest, 0);
    }
  }

  /** Consecutive records of one range stand at increasing lines and have different authors. */
  lemma EmissionsOrder(views: seq<LineView>, start: Option<int>, fp: string, digest: string -> string)
    requires Emissions(views, |views|, start, fp, digest).Ok?
    ensures var items := Emissions(views, |views|, start, fp, digest).value;
            var rs := RunStarts(views, |views|);
            |items| == |rs|
            && forall k, k' :: 0 <= k && k' == k + 1 && k' < |items| ==>
                 rs[k] < rs[k'] && items[k].author != items[k'].author
  {
    var items := Emissions(views, |views|, start, fp, digest).value;
    var rs := RunStarts(views, |views|);
    assert |items| == |rs| by { EmissionsValues(views, |views|, start, fp, digest); }
    forall k | 0 <= k < |items|
      ensures rs[k] < |views| && items[k].author == AuthorAt(views, rs[k])
    {
      EmissionsAt(views, start, fp, digest, k);
    }
    RunStartsBelow(views, |views|);
    RunStartsAuthors(views, |views|);
    ItemsAlternate(views, items, rs);
  }

  /** The record at position `k` of a range is the record of its `k`-th run start. */
  lemma EmissionsAt(views: seq<LineView>, start: Option<int>, fp: string, digest: string -> string, k: nat)
    requires Emissions(views, |views|, start, fp, digest).Ok?
    requires k < |Emissions(views, |views|, start, fp, digest).value|
    ensures var items, rs := Emissions(views, |views|, start, fp, digest).value, RunStarts(views, |views|);
            k < |rs| && rs[k] < |views| && RunStart(views, rs[k])
            && items[k].author == AuthorAt(views, rs[k])
            && start.Some? && items[k].linenum == IntToString(start.value + rs[k])
  {
    var items, rs := Emissions(views, |views|, start, fp, digest).value, RunStarts(views, |views|);
    EmissionsValues(views, |views|, start, fp, digest);
    assert EmitAt(views[rs[k]], rs[k], start, fp, digest) == Ok(items[k]);
    RunStartsBelow(views, |views|);
    assert rs[k] in rs;
  }

  /** Records carrying the authors of alternating lines alternate in author. */
  lemma ItemsAlternate(views: seq<LineView>, items: seq<HunkBlame>, rs: seq<nat>)
    requires |items| == |rs| && AuthorsAlternate(views, rs)
    requires forall k :: 0 <= k < |items| ==> rs[k] < |views| && items[k].author == AuthorAt(views, rs[k])
    ensures forall k, k' :: 0 <= k && k' == k + 1 && k' < |items| ==> items[k].author != items[k'].author
  {
    forall k, k' | 0 <= k && k' == k + 1 && k' < |items|
      ensures items[k].author != items[k'].author
    {
      AlternateAt(views, rs, k);
    }
  }

  /** The alternation of authors, read at one position. */
  lemma {:induction false} AlternateAt(views: seq<LineView>, rs: seq<nat>, k: nat)
    requires AuthorsAlternate(views, rs) && k + 1 < |rs|
    ensures rs[k] < |views| && rs[k + 1] < |views| && AuthorAt(views, rs[k]) != AuthorAt(views, rs[k + 1])
    decreases |rs|
  {
    if k + 2 < |rs| {
      AlternateAt(views, rs[..|rs| - 1], k);
    }
  }

  /** On a `git blame -e` line `hash (<mail> time zone n) code`, the hashed text is everything
      after the zone word: the `n)` line-number word and the code. */
  lemma HunkTextOfBlameLine(hash: string, author: string, time: string, zone: string, rest: string)
    requires ' ' !in hash && ' ' !in author && ' ' !in time && ' ' !in zone
    requires author != "" && time != ""
    ensures HunkText(hash + " " + author + " " + time + " " + zone + " " + rest) == Some(rest)
  {
    var words := Split(hash + " " + author + " " + time + " " + zone + " " + rest, ' ');
    BlameLineWordsOf(hash, author, time, zone, rest);
    assert words[1] == author && words[2] == time;
    assert words[4..] == Split(rest, ' ');
    JoinSplit(rest, ' ');
  }

  /** The words of such a line: the four leading words, then the words of the rest. */
  lemma BlameLineWordsOf(hash: string, author: string, time: string, zone: string, rest: string)
    requires ' ' !in hash && ' ' !in author && ' ' !in time && ' ' !in zone
    ensures Split(hash + " " + author + " " + time + " " + zone + " " + rest, ' ')
         == [hash, author, time, zone] + Split(rest, ' ')
  {
    var s0 := zone + [' '] + rest;
    SplitAtFirst(zone, ' ', rest);
    var s1 := time + [' '] + s0;
    SplitAtFirst(time, ' ', s0);
    var s2 := author + [' '] + s1;
    SplitAtFirst(author, ' ', s1);
    var s3 := hash + [' '] + s2;
    SplitAtFirst(hash, ' ', s2);
    BlameLineRegroup(hash, author, time, zone, rest);
    FourWords(hash, author, time, zone, Split(rest, ' '));
  }

  /** The blame line regrouped around its first four separators. */
  lemma BlameLineRegroup(hash: string, author: string, time: string, zone: string, rest: string)
    ensures hash + " " + author + " " + time + " " + zone + " " + rest
         == hash + [' '] + (author + [' '] + (time + [' '] + (zone + [' '] + rest)))
  {
  }

  /** Four words consed one at a time onto the rest. */
  lemma FourWords(a: string, b: string, c: string, d: string, r: seq<string>)
    ensures [a] + ([b] + ([c] + ([d] + r))) == [a, b, c, d] + r
  {
  }

  // =======================================================================================
  // `generate_blame` over every file and range
  // =======================================================================================

  /** The records of one file's ranges, in order, each range blamed through `blame(path, range)`. */
  function OldFileBlame(path: string, lines: seq<string>, blame: (string, string) -> Option<string>,
                        digest: string -> string): Checked<seq<HunkBlame>>
    decreases |lines|
  {
    if lines == [] then Ok([])
    else
      Then(OldFileBlame(path, lines[..|lines| - 1], blame, digest),
           OldRangeBlame(path, lines[|lines| - 1], blame(path, lines[|lines| - 1]), digest))
  }

  /** The records of every file, in the line map's iteration order. */
  function OldAllBlame(linemap: seq<(string, seq<string>)>, blame: (string, string) -> Option<string>,
                       digest: string -> string): Checked<seq<HunkBlame>>
    decreases |linemap|
  {
    if linemap == [] then Ok([])
    else
      var entry := linemap[|linemap| - 1];
      Then(OldAllBlame(linemap[..|linemap| - 1], blame, digest), OldFileBlame(entry.0, entry.1, blame, digest))
  }

  /** The inner loop of the older `generate_blame`: every range of one file, in order. */
  method OldBlameFile(path: string, linevec: seq<string>, blame: (string, string) -> Option<string>,
                      digest: string -> string) returns (r: Checked<seq<HunkBlame>>)
    ensures r == OldFileBlame(path, linevec, blame, digest)
  {
    var blamevec: seq<HunkBlame> := [];
    for l := 0 to |linevec|
      invariant OldFileBlame(path, linevec[..l], blame, digest) == Ok(blamevec)
    {
      var line := linevec[l];
      assert linevec[..l + 1][..l] == linevec[..l];
      var items := OldBlameRange(path, line, blame(path, line), digest);
      if items.Panic? {
        OldFileBlamePanicStays(path, linevec, l + 1, blame, digest);
        return Panic;
      }
      blamevec := blamevec + items.value;
    }
    assert linevec[..|linevec|] == linevec;
    return Ok(blamevec);
  }

  /** The older `generate_blame`: every range of every file, its records appended to one vector.
      The `git blame` call is the oracle `blame`, and the files come in the map's iteration
      order. */
  method LegacyGenerateBlame(linemap: seq<(string, seq<string>)>, blame: (string, string) -> Option<string>,
                             digest: string -> string) returns (r: Checked<seq<HunkBlame>>)
    ensures r == OldAllBlame(linemap, blame, digest)
  {
    var blamevec: seq<HunkBlame> := [];
    for e := 0 to |linemap|
      invariant OldAllBlame(linemap[..e], blame, digest) == Ok(blamevec)
    {
      var (path, linevec) := linemap[e];
      assert linemap[..e + 1][..e] == linemap[..e];
      var items := OldBlameFile(path, linevec, blame, digest);
      if items.Panic? {
        OldAllBlamePanicStays(linemap, e + 1, blame, digest);
        return Panic;
      }
      blamevec := blamevec + items.value;
    }
    assert linemap[..|linemap|] == linemap;
    return Ok(blamevec);
  }

  /** A panic in a prefix of a file's ranges is a panic for the file. */
  lemma {:induction false} OldFileBlamePanicStays(path: string, lines: seq<string>, n: nat,
                                                  blame: (string, string) -> Option<string>, digest: string -> string)
    requires n <= |lines| && OldFileBlame(path, lines[..n], blame, digest).Panic?
    ensures OldFileBlame(path, lines, blame, digest).Panic?
    decreases |lines| - n
  {
    if n < |lines| {
      assert lines[..n + 1][..n] == lines[..n];
      OldFileBlamePanicStays(path, lines, n + 1, blame, digest);
    } else {
      assert lines[..n] == lines;
    }
  }

  /** A panic in a prefix of the files is a panic for the whole run. */
  lemma {:induction false} OldAllBlamePanicStays(linemap: seq<(string, seq<string>)>, n: nat,
                                                 blame: (string, string) -> Option<string>, digest: string -> string)
    requires n <= |linemap| && OldAllBlame(linemap[..n], blame, digest).Panic?
    ensures OldAllBlame(linemap, blame, digest).Panic?
    decreases |linemap| - n
  {
    if n < |linemap| {
      assert linemap[..n + 1][..n] == linemap[..n];
      OldAllBlamePanicStays(linemap, n + 1, blame, digest);
    } else {
      assert linemap[..n] == linemap;
    }
  }

  /** A file's ranges can be blamed in two consecutive groups. */
  lemma {:induction false} OldFileBlameAppend(path: string, a: seq<string>, b: seq<string>,
                                              blame: (string, string) -> Option<string>, digest: string -> string)
    ensures OldFileBlame(path, a + b, blame, digest)
         == Then(OldFileBlame(path, a, blame, digest), OldFileBlame(path, b, blame, digest))
    decreases |b|
  {
    var fa := OldFileBlame(path, a, blame, digest);
    if b == [] {
      assert a + b == a;
      if fa.Ok? {
        assert fa.value + [] == fa.value;
      }
    } else {
      var b' := b[..|b| - 1];
      var x := b[|b| - 1];
      assert (a + b)[..|a + b| - 1] == a + b' && (a + b)[|a + b| - 1] == x;
      OldFileBlameAppend(path, a, b', blame, digest);
      ThenAssoc(fa, OldFileBlame(path, b', blame, digest), OldRangeBlame(path, x, blame(path, x), digest));
    }
  }

  /** A range whose `git blame` failed, or printed nothing, contributes nothing, and the records
      of the file's other ranges are the same with or without it. */
  lemma OldEmptyBlameAddsNothing(path: string, a: seq<string>, line: string, b: seq<string>,
                                 blame: (string, string) -> Option<string>, digest: string -> string)
    requires blame(path, line).None? || Lines(blame(path, line).value) == []
    ensures OldRangeBlame(path, line, blame(path, line), digest) == Ok([])
    ensures OldFileBlame(path, a + [line] + b, blame, digest) == OldFileBlame(path, a + b, blame, digest)
  {
    OldEmptyRange(path, line, blame(path, line), digest);
    assert OldFileBlame(path, [line], blame, digest) == Ok([]) by {
      assert [line][..0] == [];
    }
    OldFileBlameAppend(path, a + [line], b, blame, digest);
    OldFileBlameAppend(path, a, [line], blame, digest);
    OldFileBlameAppend(path, a, b, blame, digest);
    var fa := OldFileBlame(path, a, blame, digest);
    if fa.Ok? {
      assert fa.value + [] == fa.value;
    }
  }

  /** A range with no blame output yields no records. */
  lemma OldEmptyRange(path: string, line: string, blameout: Option<string>, digest: string -> string)
    requires blameout.None? || Lines(blameout.value) == []
    ensures OldRangeBlame(path, line, blameout, digest) == Ok([])
  {
  }
}
