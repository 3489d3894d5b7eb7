/** The string operations of Rust's `str` (and a few of Python's) that the attribution engine
    relies on, stated over `seq<char>`. Positions are character positions; the Rust code works
    on byte offsets, which agree with them for the ASCII delimiters used here. */
module Text {
  import opened Results

  // ---------------------------------------------------------------------------------------
  // Splitting on one character
  // ---------------------------------------------------------------------------------------

  /** Rust `s.split(c).collect()`: the pieces between the occurrences of `c`, so always one more
      piece than there are separators; `""` gives `[""]`. */
  function Split(s: string, c: char): (r: seq<string>)
    ensures |r| >= 1
    ensures forall k :: 0 <= k < |r| ==> c !in r[k]
    ensures c !in s ==> r == [s]
    decreases |s|
  {
    if s == [] then [""]
    else
      var rest := Split(s[1..], c);
      if s[0] == c then [""] + rest
      else
        assert s == [s[0]] + s[1..];
        [[s[0]] + rest[0]] + rest[1..]
  }

  /** Python/Rust `join`: the pieces with `c` between consecutive ones. */
  function Join(parts: seq<string>, c: char): string
    decreases |parts|
  {
    if parts == [] then ""
    else if |parts| == 1 then parts[0]
    else parts[0] + [c] + Join(parts[1..], c)
  }

  /** Gluing a character onto the first piece glues it onto the joined string. */
  lemma JoinConsHead(x: char, pieces: seq<string>, c: char)
    requires |pieces| >= 1
    ensures Join([[x] + pieces[0]] + pieces[1..], c) == [x] + Join(pieces, c)
  {
    var glued := [[x] + pieces[0]] + pieces[1..];
    assert glued[1..] == pieces[1..];
  }

  /** Splitting and joining on the same character gives the string back. */
  lemma {:induction false} JoinSplit(s: string, c: char)
    ensures Join(Split(s, c), c) == s
    decreases |s|
  {
    if s != [] {
      JoinSplit(s[1..], c);
      var rest := Split(s[1..], c);
      if s[0] == c {
        assert ([""] + rest)[1..] == rest;
      } else {
        JoinConsHead(s[0], rest, c);
      }
      assert s == [s[0]] + s[1..];
    }
  }

  /** Splitting at the first separator: the text before it is the first piece. */
  lemma {:induction false} SplitAtFirst(a: string, c: char, b: string)
    requires c !in a
    ensures Split(a + [c] + b, c) == [a] + Split(b, c)
    decreases |a|
  {
    if a == [] {
      assert a + [c] + b == [c] + b;
      assert ([c] + b)[1..] == b;
    } else {
      var s := a + [c] + b;
      assert s[0] == a[0] && s[0] != c;
      assert s[1..] == a[1..] + [c] + b;
      assert Split(s[1..], c) == [a[1..]] + Split(b, c) by { SplitAtFirst(a[1..], c, b); }
      assert Split(s, c) == [[s[0]] + Split(s[1..], c)[0]] + Split(s[1..], c)[1..];
      assert [a[0]] + a[1..] == a;
    }
  }

  // ---------------------------------------------------------------------------------------
  // Searching
  // ---------------------------------------------------------------------------------------

  /** Position of the first occurrence of `c`. */
  function IndexOf(s: string, c: char): (i: nat)
    requires c in s
    ensures i < |s| && s[i] == c && c !in s[..i]
    decreases |s|
  {
    if s[0] == c then 0
    else
      assert c in s[1..] by { var k :| 0 <= k < |s| && s[k] == c; assert s[1..][k - 1] == c; }
      var j := IndexOf(s[1..], c);
      assert s[..j + 1] == [s[0]] + s[1..][..j];
      j + 1
  }

  /** `p` occurs in `s` starting at position `i`. */
  predicate MatchAt(s: string, i: nat, p: string)
  {
    i + |p| <= |s| && s[i..i + |p|] == p
  }

  /** Rust `s.contains(p)` for a string pattern. */
  predicate Contains(s: string, p: string)
  {
    exists i: nat :: i + |p| <= |s| && MatchAt(s, i, p)
  }

  /** Rust `s.replace(p, r)`: every occurrence of `p`, found left to right without overlap, is
      replaced by `r`. */
  function ReplaceAll(s: string, p: string, r: string): string
    requires |p| > 0
    decreases |s|
  {
    if |s| < |p| then s
    else if s[..|p|] == p then r + ReplaceAll(s[|p|..], p, r)
    else [s[0]] + ReplaceAll(s[1..], p, r)
  }

  /** Where `p` does not occur, `replace` changes nothing. */
  lemma {:induction false} ReplaceAbsent(s: string, p: string, r: string)
    requires |p| > 0
    requires !Contains(s, p)
    ensures ReplaceAll(s, p, r) == s
    decreases |s|
  {
    if |s| >= |p| {
      assert s[..|p|] != p by { assert !MatchAt(s, 0, p); }
      assert !Contains(s[1..], p) by {
        forall i: nat | i + |p| <= |s[1..]| ensures !MatchAt(s[1..], i, p) {
          assert !MatchAt(s, i + 1, p);
          MatchAtTail(s, i, p);
        }
      }
      ReplaceAbsent(s[1..], p, r);
      assert s == [s[0]] + s[1..];
    }
  }

  /** An occurrence of `p` at the very front is replaced, and the scan resumes after it. */
  lemma ReplaceFront(p: string, s: string, r: string)
    requires |p| > 0
    ensures ReplaceAll(p + s, p, r) == r + ReplaceAll(s, p, r)
  {
    assert (p + s)[..|p|] == p;
    assert (p + s)[|p|..] == s;
  }

  /** Dropping the first character shifts every occurrence one place to the left. */
  lemma MatchAtTail(t: string, i: nat, p: string)
    requires |t| > 0
    ensures MatchAt(t[1..], i, p) <==> MatchAt(t, i + 1, p)
  {
    if i + |p| <= |t[1..]| {
      assert t[1..][i..i + |p|] == t[i + 1..i + 1 + |p|];
    }
  }

  /** Where no occurrence starts at the front, the first character is copied. */
  lemma ReplaceStep(t: string, p: string, r: string)
    requires |p| > 0 && |t| > 0 && !MatchAt(t, 0, p)
    ensures ReplaceAll(t, p, r) == [t[0]] + ReplaceAll(t[1..], p, r)
  {
    if |t| < |p| {
      assert t == [t[0]] + t[1..];
    }
  }

  /** No occurrence in the first `n + 1` positions leaves none in the first `n` of the tail. */
  lemma NoMatchTail(t: string, n: nat, p: string)
    requires |t| > 0
    requires forall i: nat :: i < n + 1 ==> !MatchAt(t, i, p)
    ensures forall i: nat :: i < n ==> !MatchAt(t[1..], i, p)
  {
    forall i: nat | i < n ensures !MatchAt(t[1..], i, p) {
      assert !MatchAt(t, i + 1, p);
      MatchAtTail(t, i, p);
    }
  }

  /** A prefix in which no occurrence of `p` starts is copied unchanged. */
  lemma {:induction false} ReplaceSkip(a: string, s: string, p: string, r: string)
    requires |p| > 0
    requires forall i: nat :: i < |a| ==> !MatchAt(a + s, i, p)
    ensures ReplaceAll(a + s, p, r) == a + ReplaceAll(s, p, r)
    decreases |a|
  {
    var t := a + s;
    if a == [] {
      assert t == s;
    } else {
      assert t[1..] == a[1..] + s;
      assert ReplaceAll(t[1..], p, r) == a[1..] + ReplaceAll(s, p, r) by {
        NoMatchTail(t, |a| - 1, p);
        ReplaceSkip(a[1..], s, p, r);
      }
      assert ReplaceAll(t, p, r) == [t[0]] + ReplaceAll(t[1..], p, r) by {
        assert !MatchAt(t, 0, p);
        ReplaceStep(t, p, r);
      }
      assert [a[0]] + (a[1..] + ReplaceAll(s, p, r)) == a + ReplaceAll(s, p, r);
    }
  }

  /** A single occurrence of `p`, after a prefix in which none starts and before text without
      one, is the only one replaced. */
  lemma ReplaceOnce(a: string, p: string, s: string, r: string)
    requires |p| > 0
    requires forall i: nat :: i < |a| ==> !MatchAt(a + (p + s), i, p)
    requires !Contains(s, p)
    ensures ReplaceAll(a + (p + s), p, r) == a + (r + s)
  {
    ReplaceSkip(a, p + s, p, r);
    ReplaceFront(p, s, r);
    ReplaceAbsent(s, p, r);
  }

  /** Rust `s.replace(c, "")` for a one-character pattern: every `c` removed. */
  function RemoveChar(s: string, c: char): (r: string)
    ensures c !in r
    ensures forall x :: x in r ==> x in s
    ensures c !in s ==> r == s
    decreases |s|
  {
    if s == [] then ""
    else if s[0] == c then RemoveChar(s[1..], c)
    else [s[0]] + RemoveChar(s[1..], c)
  }

  /** Removal works piece by piece. */
  lemma {:induction false} RemoveCharAppend(a: string, b: string, c: char)
    ensures RemoveChar(a + b, c) == RemoveChar(a, c) + RemoveChar(b, c)
    decreases |a|
  {
    if a == [] {
      assert a + b == b;
    } else {
      assert (a + b)[1..] == a[1..] + b;
      RemoveCharAppend(a[1..], b, c);
    }
  }

  // ---------------------------------------------------------------------------------------
  // Lines
  // ---------------------------------------------------------------------------------------

  /** Rust `s.lines()`: split after every `\n`, drop the line feed and a `\r` just before it;
      a final line ending is optional, so `""` has no lines and `"a\n"` has one. */
  function Lines(s: string): (r: seq<string>)
    ensures r == [] <==> s == []
    decreases |s|
  {
    if s == [] then []
    else if '\n' !in s then [s]
    else
      var i := IndexOf(s, '\n');
      var line := s[..i];
      [if |line| > 0 && line[|line| - 1] == '\r' then line[..|line| - 1] else line] + Lines(s[i + 1..])
  }

  // ---------------------------------------------------------------------------------------
  // Decimal numbers
  // ---------------------------------------------------------------------------------------

  const I32Min: int := -0x8000_0000
  const I32Max: int := 0x7fff_ffff
  const UsizeMax: int := 0xffff_ffff_ffff_ffff

  predicate IsDigit(c: char) { '0' <= c <= '9' }

  predicate AllDigits(s: string) { forall i :: 0 <= i < |s| ==> IsDigit(s[i]) }

  function DigitValue(c: char): nat
    requires IsDigit(c)
  {
    c as int - '0' as int
  }

  function DigitChar(d: nat): (c: char)
    requires d < 10
    ensures IsDigit(c) && DigitValue(c) == d
  {
    ('0' as int + d) as char
  }

  /** The value of a string of decimal digits, most significant first. */
  function DigitsValue(s: string): nat
    requires AllDigits(s)
    decreases |s|
  {
    if s == [] then 0 else DigitsValue(s[..|s| - 1]) * 10 + DigitValue(s[|s| - 1])
  }

  /** Rust `to_string` / `format!("{}")` of a non-negative integer: decimal, no leading zero. */
  function NatToString(n: nat): string
    decreases n
  {
    if n < 10 then [DigitChar(n)] else NatToString(n / 10) + [DigitChar(n % 10)]
  }

  /** Decimal rendering of any integer, with a leading `-` when negative (Rust and Python alike). */
  function IntToString(i: int): string
  {
    if i < 0 then "-" + NatToString(-i) else NatToString(i)
  }

  /** Printing a number gives a non-empty digit string that reads back as the number. */
  lemma {:induction false} NatToStringDigits(n: nat)
    ensures |NatToString(n)| > 0 && AllDigits(NatToString(n))
    ensures DigitsValue(NatToString(n)) == n
    decreases n
  {
    if n >= 10 {
      NatToStringDigits(n / 10);
      var s := NatToString(n);
      assert s[..|s| - 1] == NatToString(n / 10);
    }
  }

  /** Rust `<i32 as FromStr>::from_str`: an optional `+` or `-`, then at least one ASCII digit,
      and the value must fit in 32 bits; anything else is an error (`None`). */
  function ParseI32(s: string): Option<int>
  {
    if |s| == 0 || (|s| == 1 && (s[0] == '+' || s[0] == '-')) then None
    else
      var digits := if s[0] == '+' || s[0] == '-' then s[1..] else s;
      if !AllDigits(digits) then None
      else
        var v: int := if s[0] == '-' then -(DigitsValue(digits) as int) else DigitsValue(digits);
        if I32Min <= v <= I32Max then Some(v) else None
  }

  /** Rust `<usize as FromStr>::from_str` on a 64-bit target: an optional `+`, then at least one
      ASCII digit; a `-` is an invalid digit for an unsigned type. */
  function ParseUsize(s: string): Option<nat>
  {
    if |s| == 0 || (|s| == 1 && (s[0] == '+' || s[0] == '-')) then None
    else
      var digits := if s[0] == '+' then s[1..] else s;
      if AllDigits(digits) && DigitsValue(digits) <= UsizeMax then Some(DigitsValue(digits)) else None
  }

  /** A printed 32-bit count parses back to itself. */
  lemma ParseI32Printed(n: nat)
    requires n <= I32Max
    ensures ParseI32(NatToString(n)) == Some(n)
  {
    NatToStringDigits(n);
    assert IsDigit(NatToString(n)[0]);
  }

  /** A printed line number parses back to itself as a `usize`. */
  lemma ParseUsizePrinted(n: nat)
    requires n <= UsizeMax
    ensures ParseUsize(NatToString(n)) == Some(n)
  {
    NatToStringDigits(n);
    assert IsDigit(NatToString(n)[0]);
  }

  /** Whatever `i32` parsing accepts without a leading `-` is a non-negative number. */
  lemma ParseI32NoMinus(s: string)
    requires '-' !in s && ParseI32(s).Some?
    ensures ParseI32(s).value >= 0
  {
    assert s[0] != '-';
  }

  // ---------------------------------------------------------------------------------------
  // Python whitespace
  // ---------------------------------------------------------------------------------------

  /** The characters Python's `str.isspace` and the regex class `\s` accept: the ASCII controls
      `\t` to `\r` and `\x1c` to `\x1f`, the space, and the Unicode space separators and line
      and paragraph separators. */
  predicate IsSpace(c: char)
  {
    ('\t' <= c <= '\r') || ('\U{001C}' <= c <= ' ')
    || c == '\U{0085}' || c == '\U{00A0}' || c == '\U{1680}'
    || ('\U{2000}' <= c <= '\U{200A}') || c == '\U{2028}' || c == '\U{2029}'
    || c == '\U{202F}' || c == '\U{205F}' || c == '\U{3000}'
  }

  /** Python `s.rstrip()`: trailing whitespace removed. */
  function RStrip(s: string): (r: string)
    ensures |r| <= |s| && r == s[..|r|]
    ensures r == [] || !IsSpace(r[|r| - 1])
    ensures forall i :: |r| <= i < |s| ==> IsSpace(s[i])
    decreases |s|
  {
    if s != [] && IsSpace(s[|s| - 1]) then RStrip(s[..|s| - 1]) else s
  }
}
