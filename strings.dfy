/**
 * Python's `str` operations used by the ad-block compiler and the history
 * store, on `string` (a sequence of Unicode scalar values).
 */
module Strings {

  /** `sub` occurs in `s` starting at index `i`. */
  ghost predicate OccursAt(s: string, sub: string, i: int) {
    0 <= i && i + |sub| <= |s| && s[i..i + |sub|] == sub
  }

  lemma OccursAfterHead(s: string, sub: string, i: int)
    requires |s| > 0 && i >= 1
    ensures OccursAt(s, sub, i) <==> OccursAt(s[1..], sub, i - 1)
  {
    if i + |sub| <= |s| {
      assert s[1..][i - 1..i - 1 + |sub|] == s[i..i + |sub|];
    }
  }

  lemma OccursInPrefix(s: string, sub: string, k: int, j: int)
    requires 0 <= k <= |s|
    requires OccursAt(s[..k], sub, j)
    ensures OccursAt(s, sub, j) && j + |sub| <= k
  {
    assert s[..k][j..j + |sub|] == s[j..j + |sub|];
  }

  /** Python's `s.find(sub)`: the least index at which `sub` occurs, or -1. */
  function Find(s: string, sub: string): (r: int)
    ensures -1 <= r <= |s|
    ensures r == -1 ==> forall i :: !OccursAt(s, sub, i)
    ensures r != -1 ==> OccursAt(s, sub, r) && forall i :: 0 <= i < r ==> !OccursAt(s, sub, i)
    decreases |s|
  {
    if |s| < |sub| then -1
    else if s[..|sub|] == sub then 0
    else
      var k := Find(s[1..], sub);
      assert forall i :: 1 <= i ==> (OccursAt(s, sub, i) <==> OccursAt(s[1..], sub, i - 1)) by {
        forall i | 1 <= i {
          OccursAfterHead(s, sub, i);
        }
      }
      if k == -1 then -1 else k + 1
  }

  /** Python's `sub in s`. */
  predicate Contains(s: string, sub: string) {
    Find(s, sub) != -1
  }

  lemma ContainsChar(s: string, c: char)
    ensures Contains(s, [c]) <==> c in s
  {
    if c in s {
      var i :| 0 <= i < |s| && s[i] == c;
      assert s[i..i + 1] == [c];
      assert OccursAt(s, [c], i);
    }
    if Contains(s, [c]) {
      var k := Find(s, [c]);
      assert s[k..k + 1] == [c];
      assert s[k] == c;
    }
  }

  /** Python's `s.startswith(prefix)`. */
  predicate StartsWith(s: string, prefix: string) {
    |prefix| <= |s| && s[..|prefix|] == prefix
  }

  /** Python's `sep.join(parts)`. */
  function Join(parts: seq<string>, sep: string): string {
    if |parts| == 0 then ""
    else if |parts| == 1 then parts[0]
    else parts[0] + sep + Join(parts[1..], sep)
  }

  /**
   * Python's `s.split(sep)` for a non-empty separator: cut at every
   * occurrence, scanning from the left without overlap.
   */
  function Split(s: string, sep: string): (parts: seq<string>)
    requires sep != ""
    ensures |parts| >= 1
    decreases |s|
  {
    var k := Find(s, sep);
    if k == -1 then [s] else [s[..k]] + Split(s[k + |sep|..], sep)
  }

  /**
   * The parts of a split join back to the string, none of them holds the
   * separator, and there is more than one exactly when the string holds it.
   */
  lemma {:induction false} SplitFacts(s: string, sep: string)
    requires sep != ""
    ensures Join(Split(s, sep), sep) == s
    ensures forall i :: 0 <= i < |Split(s, sep)| ==> !Contains(Split(s, sep)[i], sep)
    ensures |Split(s, sep)| == 1 <==> !Contains(s, sep)
    decreases |s|
  {
    var k := Find(s, sep);
    if k != -1 {
      var rest := Split(s[k + |sep|..], sep);
      SplitFacts(s[k + |sep|..], sep);
      NoOccurrenceBeforeFind(s, sep);
      var parts := [s[..k]] + rest;
      assert parts == Split(s, sep);
      assert parts[1..] == rest;
      forall i | 0 <= i < |parts| ensures !Contains(parts[i], sep) {
        if i > 0 { assert parts[i] == rest[i - 1]; }
      }
      assert Join(parts, sep) == s[..k] + sep + s[k + |sep|..];
      Recompose(s, k, sep);
    }
  }

  lemma Recompose(s: string, k: int, sep: string)
    requires OccursAt(s, sep, k)
    ensures s[..k] + sep + s[k + |sep|..] == s
  {
    assert s == s[..k] + s[k..k + |sep|] + s[k + |sep|..];
  }

  lemma NoOccurrenceBeforeFind(s: string, sub: string)
    requires sub != "" && Find(s, sub) != -1
    ensures !Contains(s[..Find(s, sub)], sub)
  {
    var k := Find(s, sub);
    if Contains(s[..k], sub) {
      OccursInPrefix(s, sub, k, Find(s[..k], sub));
    }
  }

  /** Python's `content.split('\n')`. */
  function Lines(content: string): (lines: seq<string>)
    ensures |lines| >= 1
  {
    Split(content, "\n")
  }

  /** Python's `s.replace(a, b, 1)` for single characters. */
  function ReplaceFirst(s: string, a: char, b: char): (r: string)
    ensures |r| == |s|
    ensures b in r <==> b in s || a in s
    ensures forall c | c != a && c != b :: c in r <==> c in s
  {
    if s == [] then []
    else if s[0] == a then [b] + s[1..]
    else [s[0]] + ReplaceFirst(s[1..], a, b)
  }

  lemma {:induction false} ReplaceFirstAt(p: string, t: string, a: char, b: char)
    requires a !in p
    ensures ReplaceFirst(p + [a] + t, a, b) == p + [b] + t
  {
    if p != [] {
      assert (p + [a] + t)[1..] == p[1..] + [a] + t;
      ReplaceFirstAt(p[1..], t, a, b);
    }
  }

  /** Python's `s.replace(c, '')`. */
  function RemoveChar(s: string, c: char): (r: string)
    ensures c !in r
    ensures forall x | x != c :: x in r <==> x in s
    ensures |r| <= |s|
  {
    if s == [] then []
    else if s[0] == c then RemoveChar(s[1..], c)
    else [s[0]] + RemoveChar(s[1..], c)
  }

  lemma {:induction false} RemoveAbsentChar(s: string, c: char)
    requires c !in s
    ensures RemoveChar(s, c) == s
  {
    if s != [] {
      RemoveAbsentChar(s[1..], c);
    }
  }

  /** Python's `s.rstrip(c)`: the longest prefix of `s` that does not end with `c`. */
  function RStrip(s: string, c: char): (r: string)
    ensures |r| <= |s| && r == s[..|r|]
    ensures r == [] || r[|r| - 1] != c
    ensures forall i :: |r| <= i < |s| ==> s[i] == c
  {
    if |s| > 0 && s[|s| - 1] == c then RStrip(s[..|s| - 1], c) else s
  }

  /** Python's `str.isspace()` for one character. */
  predicate IsSpace(c: char) {
    c in {' ', '\t', '\n', '\r', '\U{0b}', '\U{0c}', '\U{1c}', '\U{1d}', '\U{1e}', '\U{1f}',
          '\U{85}', '\U{a0}', '\U{1680}', '\U{2028}', '\U{2029}', '\U{202f}', '\U{205f}', '\U{3000}'}
    || '\U{2000}' <= c <= '\U{200a}'
  }

  function TrimLeft(s: string): (r: string)
    ensures |r| <= |s| && r == s[|s| - |r|..]
    ensures r == [] || !IsSpace(r[0])
  {
    if |s| > 0 && IsSpace(s[0]) then TrimLeft(s[1..]) else s
  }

  function TrimRight(s: string): (r: string)
    ensures |r| <= |s| && r == s[..|r|]
    ensures r == [] || !IsSpace(r[|r| - 1])
  {
    if |s| > 0 && IsSpace(s[|s| - 1]) then TrimRight(s[..|s| - 1]) else s
  }

  /** Python's `s.strip()`: whitespace removed from both ends. */
  function Strip(s: string): (r: string)
    ensures |r| <= |s|
    ensures r == [] || (!IsSpace(r[0]) && !IsSpace(r[|r| - 1]))
    ensures forall c :: c in r ==> c in s
  {
    var t := TrimLeft(s);
    var r := TrimRight(t);
    assert forall c :: c in r ==> c in t;
    assert r != [] ==> r[0] == t[0];
    r
  }

  function LowerChar(c: char): char {
    if 'A' <= c <= 'Z' then (c as int + 32) as char else c
  }

  /** `s.lower()` on ASCII letters. */
  function Lower(s: string): (r: string)
    ensures |r| == |s|
    ensures forall i :: 0 <= i < |s| ==> r[i] == LowerChar(s[i])
  {
    if s == [] then [] else [LowerChar(s[0])] + Lower(s[1..])
  }

  /** The prefix of `s` before the first character in `stops` (Python's `re.split` on a character class, item 0). */
  function PrefixBefore(s: string, stops: set<char>): (r: string)
    ensures |r| <= |s| && r == s[..|r|]
    ensures forall c :: c in r ==> c !in stops
    ensures |r| < |s| ==> s[|r|] in stops
  {
    if s == [] || s[0] in stops then [] else [s[0]] + PrefixBefore(s[1..], stops)
  }

  /** What a loop appending `x + sep` for every `x` of `parts` builds. */
  function Terminated(parts: seq<string>, sep: string): string {
    if parts == [] then "" else Terminated(parts[..|parts| - 1], sep) + parts[|parts| - 1] + sep
  }

  lemma {:induction false} JoinSnoc(parts: seq<string>, x: string, sep: string)
    requires parts != []
    ensures Join(parts + [x], sep) == Join(parts, sep) + sep + x
    decreases |parts|
  {
    if |parts| == 1 {
      assert (parts + [x])[1..] == [x];
    } else {
      assert (parts + [x])[1..] == parts[1..] + [x];
      JoinSnoc(parts[1..], x, sep);
    }
  }

  /** Appending `x + sep` for each part and dropping the final separator gives `sep.join(parts)`. */
  lemma {:induction false} TerminatedIsJoin(parts: seq<string>, sep: string)
    requires parts != []
    ensures Terminated(parts, sep) == Join(parts, sep) + sep
    decreases |parts|
  {
    var init := parts[..|parts| - 1];
    var x := parts[|parts| - 1];
    if init == [] {
      assert parts == [x];
    } else {
      TerminatedIsJoin(init, sep);
      JoinSnoc(init, x, sep);
      assert init + [x] == parts;
    }
  }

  /** `s.find(c)` for a single character is the index of its first occurrence. */
  lemma FindCharAt(s: string, c: char, k: int)
    requires 0 <= k < |s| && s[k] == c && c !in s[..k]
    ensures Find(s, [c]) == k
  {
    assert OccursAt(s, [c], k) by { assert s[k..k + 1] == [c]; }
    var j := Find(s, [c]);
    assert s[j..j + 1] == [c];
  }

  /** Splitting at the only occurrence of a character gives the two sides. */
  lemma SplitAtOnlyOccurrence(s: string, c: char, k: int)
    requires 0 <= k < |s| && s[k] == c && c !in s[..k] && c !in s[k + 1..]
    ensures Split(s, [c]) == [s[..k], s[k + 1..]]
  {
    FindCharAt(s, c, k);
    ContainsChar(s[k + 1..], c);
    assert Split(s[k + 1..], [c]) == [s[k + 1..]];
    assert Split(s, [c]) == [s[..k]] + Split(s[k + 1..], [c]);
  }

  /** `s.find(sub) == 0` exactly when `s` starts with `sub`. */
  lemma FindZeroIsPrefix(s: string, sub: string)
    ensures Find(s, sub) == 0 <==> StartsWith(s, sub)
  {
    if StartsWith(s, sub) {
      assert OccursAt(s, sub, 0);
    }
  }

  /** A string without the first character of `sub` does not contain `sub`. */
  lemma AbsentHeadNotContained(s: string, sub: string)
    requires sub != [] && sub[0] !in s
    ensures !Contains(s, sub)
  {
  }
}
