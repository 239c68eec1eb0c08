/** The `null` results of the widgets, as an option type. */
module Wrappers {

  datatype Option<+T> = None | Some(value: T)
}

/**
  String helpers standing for the ECMAScript string built-ins the widgets call:
  `trim`, the `\s` class, `toLowerCase`, `indexOf`/`includes`, `split` and `join`.
 */
module Text {
  import opened Seqs

  /** The ECMAScript WhiteSpace and LineTerminator code points: what `trim` removes and `\s` matches. */
  predicate IsSpace(c: char) {
    || c == ' ' || c == '\t' || c == '\n' || c == '\r' || c == '\U{000B}' || c == '\U{000C}'
    || c == '\U{00A0}' || c == '\U{1680}' || ('\U{2000}' <= c <= '\U{200A}')
    || c == '\U{2028}' || c == '\U{2029}' || c == '\U{202F}' || c == '\U{205F}'
    || c == '\U{3000}' || c == '\U{FEFF}'
  }

  /** The ASCII digits matched by `\d`. */
  predicate IsDigit(c: char) {
    '0' <= c <= '9'
  }

  function DigitValue(c: char): (d: nat)
    requires IsDigit(c)
    ensures d <= 9
  {
    c as int - '0' as int
  }

  predicate AllSpace(s: string) {
    forall i :: 0 <= i < |s| ==> IsSpace(s[i])
  }

  /** Length of the longest prefix of `s` whose characters all satisfy `p`. */
  function PrefixWhile(s: string, p: char -> bool): (k: nat)
    ensures k <= |s|
    ensures forall i :: 0 <= i < k ==> p(s[i])
    ensures k < |s| ==> !p(s[k])
  {
    if |s| == 0 || !p(s[0]) then 0 else 1 + PrefixWhile(s[1..], p)
  }

  /** The run of `p` at the front of `a + b` is exactly `a` when `b` starts with a character failing `p`. */
  lemma PrefixWhileConcat(a: string, b: string, p: char -> bool)
    requires forall i :: 0 <= i < |a| ==> p(a[i])
    requires |b| > 0 && !p(b[0])
    ensures PrefixWhile(a + b, p) == |a|
  {
    assert (a + b)[|a|] == b[0];
  }

  function SuffixWhile(s: string, p: char -> bool): (k: nat)
    ensures k <= |s|
    ensures forall i :: |s| - k <= i < |s| ==> p(s[i])
    ensures k < |s| ==> !p(s[|s| - k - 1])
  {
    if |s| == 0 || !p(s[|s| - 1]) then 0 else 1 + SuffixWhile(s[..|s| - 1], p)
  }

  /** `String.prototype.trim`: drop whitespace at both ends and nothing else. */
  function Trim(s: string): (r: string)
    ensures |r| <= |s|
    ensures |r| > 0 ==> !IsSpace(r[0]) && !IsSpace(r[|r| - 1])
  {
    var a := PrefixWhile(s, IsSpace);
    var b := SuffixWhile(s[a..], IsSpace);
    assert |s| - b > a ==> s[|s| - b - 1] == s[a..][|s[a..]| - b - 1];
    s[a..|s| - b]
  }

  /** The trimmed string sits inside the original with only whitespace before and after it. */
  lemma TrimSpec(s: string)
    ensures exists i | 0 <= i <= |s| - |Trim(s)| :: s[i..i + |Trim(s)|] == Trim(s) && AllSpace(s[..i]) && AllSpace(s[i + |Trim(s)|..])
  {
    var a := PrefixWhile(s, IsSpace);
    var r := Trim(s);
    TrimAfter(s);
    assert 0 <= a <= |s| - |r|;
    assert s[a..a + |r|] == r;
    assert AllSpace(s[..a]) by {
      forall i | 0 <= i < a ensures IsSpace(s[..a][i]) {
        assert s[..a][i] == s[i];
      }
    }
    assert AllSpace(s[a + |r|..]);
  }

  /** What follows the trimmed string is the trailing run of whitespace. */
  lemma TrimAfter(s: string)
    ensures PrefixWhile(s, IsSpace) + |Trim(s)| <= |s|
    ensures AllSpace(s[PrefixWhile(s, IsSpace) + |Trim(s)|..])
  {
    var a := PrefixWhile(s, IsSpace);
    var b := SuffixWhile(s[a..], IsSpace);
    var t := s[a + |Trim(s)|..];
    assert a + |Trim(s)| == |s| - b;
    forall i | 0 <= i < |t| ensures IsSpace(t[i]) {
      assert t[i] == s[a..][|s[a..]| - b + i];
    }
  }

  /** Every character of the trimmed string comes from the original. */
  lemma TrimKeeps(s: string, p: char -> bool)
    requires forall i :: 0 <= i < |s| ==> p(s[i])
    ensures forall j :: 0 <= j < |Trim(s)| ==> p(Trim(s)[j])
  {
    var a := PrefixWhile(s, IsSpace);
    var r := Trim(s);
    forall j | 0 <= j < |r| ensures p(r[j]) {
      assert r[j] == s[a + j];
    }
  }

  /** Trimming a string that has no whitespace at its ends gives it back. */
  lemma TrimOfTrimmed(s: string)
    requires |s| > 0 ==> !IsSpace(s[0]) && !IsSpace(s[|s| - 1])
    ensures Trim(s) == s
  {
    var a := PrefixWhile(s, IsSpace);
    if |s| > 0 {
      assert a == 0;
      assert SuffixWhile(s, IsSpace) == 0;
    }
  }

  /** Blank means empty after trimming: `text.trim() === ''`. */
  lemma TrimEmptyIffAllSpace(s: string)
    ensures Trim(s) == [] <==> AllSpace(s)
  {
    if Trim(s) == [] {
      TrimEmptyIsBlank(s);
    } else {
      TrimNonEmptyIsNotBlank(s);
    }
  }

  /** The trailing run of whitespace cannot reach back over the first non-space character. */
  lemma RunsMeet(s: string)
    ensures var a := PrefixWhile(s, IsSpace);
      a < |s| ==> SuffixWhile(s[a..], IsSpace) < |s| - a
  {
    var a := PrefixWhile(s, IsSpace);
    if a < |s| {
      assert s[a..][0] == s[a];
    }
  }

  lemma TrimEmptyIsBlank(s: string)
    requires Trim(s) == []
    ensures AllSpace(s)
  {
    var a := PrefixWhile(s, IsSpace);
    var b := SuffixWhile(s[a..], IsSpace);
    RunsMeet(s);
    assert a == |s|;
  }

  lemma TrimNonEmptyIsNotBlank(s: string)
    requires Trim(s) != []
    ensures !AllSpace(s)
  {
    var a := PrefixWhile(s, IsSpace);
    assert Trim(s)[0] == s[a];
  }

  /** `toLowerCase` on the ASCII letters; every other character is left as it is. */
  function LowerChar(c: char): char {
    if 'A' <= c <= 'Z' then (c as int + 32) as char else c
  }

  function ToLower(s: string): (r: string)
    ensures |r| == |s|
    ensures forall i :: 0 <= i < |s| ==> r[i] == LowerChar(s[i])
  {
    seq(|s|, i requires 0 <= i < |s| => LowerChar(s[i]))
  }

  /** `q` occurs in `text` starting at index `i`. */
  predicate OccursAt(text: string, q: string, i: int) {
    0 <= i && i + |q| <= |text| && text[i..i + |q|] == q
  }

  /** `String.prototype.indexOf`: the first index at which `q` occurs, or -1. */
  function IndexOf(text: string, q: string): (r: int)
    ensures r == -1 || OccursAt(text, q, r)
    ensures r == -1 <==> forall i :: 0 <= i <= |text| ==> !OccursAt(text, q, i)
    ensures forall i :: 0 <= i < r ==> !OccursAt(text, q, i)
    decreases |text|
  {
    if |q| > |text| then -1
    else if text[..|q|] == q then 0
    else
      var r := IndexOf(text[1..], q);
      assert forall i :: 1 <= i <= |text| ==> (OccursAt(text, q, i) <==> OccursAt(text[1..], q, i - 1)) by {
        forall i | 1 <= i <= |text| ensures OccursAt(text, q, i) <==> OccursAt(text[1..], q, i - 1) {
          if i + |q| <= |text| {
            SliceOfTail(text, i, |q|);
          }
        }
      }
      if r == -1 then -1 else r + 1
  }

  lemma SliceOfTail(text: string, i: int, n: nat)
    requires 1 <= i && i + n <= |text|
    ensures text[i..i + n] == text[1..][i - 1..i - 1 + n]
  {
    var a := text[i..i + n];
    var b := text[1..][i - 1..i - 1 + n];
    forall k | 0 <= k < n ensures a[k] == b[k] {
      assert a[k] == text[i + k];
    }
  }

  /** `String.prototype.includes`. */
  predicate Includes(text: string, q: string) {
    IndexOf(text, q) != -1
  }

  lemma IncludesIffOccurs(text: string, q: string)
    ensures Includes(text, q) <==> exists i :: OccursAt(text, q, i)
  {
    if !Includes(text, q) {
      forall i ensures !OccursAt(text, q, i) {
        if 0 <= i <= |text| { } else { assert !OccursAt(text, q, i); }
      }
    }
  }

  predicate NonEmpty(s: string) {
    s != ""
  }

  predicate StartsWith(s: string, p: string) {
    |p| <= |s| && s[..|p|] == p
  }

  /** `parts.join(sep)`. */
  function Join(parts: seq<string>, sep: string): (r: string)
    ensures |parts| == 1 ==> r == parts[0]
  {
    if |parts| == 0 then ""
    else if |parts| == 1 then parts[0]
    else parts[0] + sep + Join(parts[1..], sep)
  }

  /** A join starts with its first part. */
  lemma JoinStartsWith(parts: seq<string>, sep: string)
    requires |parts| > 0
    ensures StartsWith(Join(parts, sep), parts[0])
  {
  }

  /** `s.split(c)` for a one-character separator: the pieces between occurrences of `c`. */
  function SplitOn(s: string, c: char): (parts: seq<string>)
    ensures |parts| > 0
    ensures forall k :: 0 <= k < |parts| ==> c !in parts[k]
    ensures Join(parts, [c]) == s
    decreases |s|
  {
    var k := PrefixWhile(s, x => x != c);
    assert c !in s[..k];
    if k == |s| then
      assert s[..k] == s;
      [s]
    else
      var rest := SplitOn(s[k + 1..], c);
      assert s == s[..k] + [c] + s[k + 1..];
      [s[..k]] + rest
  }

  /** Splitting the parts joined by `c` gives the parts back when none of them contains `c`. */
  lemma {:induction false} SplitOnOfJoin(parts: seq<string>, c: char)
    requires |parts| > 0
    requires forall k :: 0 <= k < |parts| ==> c !in parts[k]
    ensures SplitOn(Join(parts, [c]), c) == parts
    decreases |parts|
  {
    var s := Join(parts, [c]);
    var a := parts[0];
    var k := PrefixWhile(s, x => x != c);
    if |parts| == 1 {
      assert s == a;
      assert k == |s|;
      assert s[..k] == s;
    } else {
      var rest := Join(parts[1..], [c]);
      assert s == a + [c] + rest;
      assert s[|a|] == c;
      assert forall i :: 0 <= i < |a| ==> s[i] == a[i];
      assert k == |a|;
      assert s[..k] == a;
      assert s[k + 1..] == rest;
      SplitOnOfJoin(parts[1..], c);
    }
  }

  /** `s ? s.split(',').map(t => t.trim()) : []`: a comma-separated cell as a list. */
  function CommaList(s: string): (items: seq<string>)
    ensures s == "" ==> items == []
    ensures s != "" ==> |items| > 0
    ensures forall k :: 0 <= k < |items| ==> ',' !in items[k]
  {
    if s == "" then []
    else
      var parts := SplitOn(s, ',');
      forall k | 0 <= k < |parts| ensures ',' !in Trim(parts[k]) {
        TrimKeeps(parts[k], c => c != ',');
      }
      seq(|parts|, k requires 0 <= k < |parts| => Trim(parts[k]))
  }

  /** A cell written as comma-joined entries, each non-empty and trimmed, reads back as those entries. */
  lemma CommaListOfJoin(items: seq<string>)
    requires forall k :: 0 <= k < |items| ==> |items[k]| > 0 && ',' !in items[k]
    requires forall k :: 0 <= k < |items| ==> !IsSpace(items[k][0]) && !IsSpace(items[k][|items[k]| - 1])
    ensures CommaList(Join(items, ",")) == items
  {
    if |items| > 0 {
      JoinStartsWith(items, ",");
      SplitOnOfJoin(items, ',');
      forall k | 0 <= k < |items| ensures Trim(items[k]) == items[k] {
        TrimOfTrimmed(items[k]);
      }
    }
  }

  /** The characters outside a class. */
  function Not(p: char -> bool): char -> bool {
    x => !p(x)
  }

  /**
    `s.split(/[...]+/)` for a separator class: the pieces between maximal runs of
    separator characters (a leading or trailing run leaves an empty piece).
   */
  function SplitRuns(s: string, sep: char -> bool): (parts: seq<string>)
    ensures |parts| > 0
    ensures forall k, i :: 0 <= k < |parts| && 0 <= i < |parts[k]| ==> !sep(parts[k][i])
    decreases |s|
  {
    var k := PrefixWhile(s, Not(sep));
    if k == |s| then
      [s]
    else
      var m := k + PrefixWhile(s[k..], sep);
      [s[..k]] + SplitRuns(s[m..], sep)
  }

  /** A piece free of separators, one separator, and a piece that starts with a non-separator: the first piece splits off. */
  lemma SplitRunsFirst(a: string, c: char, rest: string, sep: char -> bool)
    requires sep(c) && forall i :: 0 <= i < |a| ==> !sep(a[i])
    requires |rest| > 0 && !sep(rest[0])
    ensures SplitRuns(a + [c] + rest, sep) == [a] + SplitRuns(rest, sep)
  {
    var s := a + [c] + rest;
    assert s == a + ([c] + rest);
    PrefixWhileConcat(a, [c] + rest, Not(sep));
    var t := s[|a|..];
    assert t == [c] + rest;
    PrefixWhileConcat([c], rest, sep);
    assert s[|a| + 1..] == rest;
    assert s[..|a|] == a;
  }

  /**
    Splitting text written as the parts joined by one separator character gives the
    parts back, when the parts are non-empty and free of separator characters.
   */
  lemma {:induction false} SplitRunsOfJoin(parts: seq<string>, c: char, sep: char -> bool)
    requires |parts| > 0
    requires sep(c)
    requires forall k :: 0 <= k < |parts| ==> |parts[k]| > 0
    requires forall k, i :: 0 <= k < |parts| && 0 <= i < |parts[k]| ==> !sep(parts[k][i])
    ensures SplitRuns(Join(parts, [c]), sep) == parts
    decreases |parts|
  {
    var s := Join(parts, [c]);
    if |parts| == 1 {
      assert PrefixWhile(s, Not(sep)) == |s|;
    } else {
      var rest := Join(parts[1..], [c]);
      assert s == parts[0] + [c] + rest;
      assert rest[0] == parts[1][0] by {
        JoinStartsWith(parts[1..], [c]);
      }
      assert forall i :: 0 <= i < |parts[0]| ==> !sep(parts[0][i]);
      SplitRunsFirst(parts[0], c, rest, sep);
      SplitRunsOfJoin(parts[1..], c, sep);
      HeadTail(parts);
    }
  }

  /** Value of a run of decimal digits, as `parseInt(s, 10)` reads it. */
  function DigitsValue(s: string): (v: nat)
    requires forall i :: 0 <= i < |s| ==> IsDigit(s[i])
  {
    if |s| == 0 then 0 else 10 * DigitsValue(s[..|s| - 1]) + DigitValue(s[|s| - 1])
  }
}
