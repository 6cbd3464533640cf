/**
 * The operations of java.lang.String that the download handler relies on:
 * `toUpperCase`, `contains`, `replace(CharSequence, CharSequence)` and
 * `split` with a one-character, non-meta pattern (Java's fast path, which
 * splits on a literal character and drops trailing empty strings).
 */
module JavaString {

  /** `Character.toUpperCase` restricted to ASCII: a-z become A-Z, every other character is kept. */
  function UpperChar(c: char): char {
    if 'a' <= c <= 'z' then (c as int - 32) as char else c
  }

  /**
   * `String.toUpperCase`, character by character: the result is the same
   * string up to letter case, with no lower-case ASCII letter left.
   */
  function ToUpperCase(s: string): (r: string)
    ensures EqualIgnoringCase(r, s)
    ensures forall k :: 0 <= k < |r| ==> !('a' <= r[k] <= 'z')
  {
    seq(|s|, i requires 0 <= i < |s| => UpperChar(s[i]))
  }

  /** Two characters that are the same letter in either case, or simply equal. */
  predicate SameIgnoringCase(x: char, y: char) {
    x == y
    || ('a' <= x <= 'z' && y as int == x as int - 32)
    || ('a' <= y <= 'z' && x as int == y as int - 32)
  }

  predicate EqualIgnoringCase(a: string, b: string) {
    |a| == |b| && forall k :: 0 <= k < |a| ==> SameIgnoringCase(a[k], b[k])
  }

  /** `t` occurs in `s` starting at index `i`, letter case disregarded. */
  predicate OccursIgnoringCaseAt(s: string, t: string, i: int) {
    0 <= i && i + |t| <= |s| && EqualIgnoringCase(s[i..i + |t|], t)
  }

  /** `t` occurs somewhere in `s` when letter case is disregarded. */
  ghost predicate OccursIgnoringCase(s: string, t: string) {
    exists i :: OccursIgnoringCaseAt(s, t, i)
  }

  predicate IsUpperWord(t: string) {
    forall k :: 0 <= k < |t| ==> 'A' <= t[k] <= 'Z'
  }

  /** `t` occurs in `s` starting at index `i`. */
  predicate OccursAt(s: string, t: string, i: int) {
    0 <= i && i + |t| <= |s| && s[i..i + |t|] == t
  }

  /** `String.contains`: does `t` occur as a contiguous piece of `s`? */
  function Contains(s: string, t: string): (r: bool)
    ensures r <==> exists i :: OccursAt(s, t, i)
    decreases |s|
  {
    if |s| < |t| then false
    else if s[..|t|] == t then (assert OccursAt(s, t, 0); true)
    else
      var rest := Contains(s[1..], t);
      ShiftOccurrence(s, t);
      rest
  }

  /** An occurrence in `s` past index 0 is an occurrence in `s[1..]`, and back. */
  lemma ShiftOccurrence(s: string, t: string)
    requires |s| >= 1
    ensures (exists i :: 1 <= i && OccursAt(s, t, i)) <==> (exists j :: OccursAt(s[1..], t, j))
    ensures |s| >= |t| ==> (OccursAt(s, t, 0) <==> s[..|t|] == t)
  {
    if i :| 1 <= i && OccursAt(s, t, i) {
      assert s[1..][i - 1..i - 1 + |t|] == s[i..i + |t|];
      assert OccursAt(s[1..], t, i - 1);
    }
    if j :| OccursAt(s[1..], t, j) {
      assert s[j + 1..j + 1 + |t|] == s[1..][j..j + |t|];
      assert OccursAt(s, t, j + 1);
    }
  }

  /**
   * Upper-casing the subject and then searching for an upper-case word is a
   * case-insensitive search for that word.
   */
  lemma {:induction false} ContainsUpperCaseIgnoresCase(s: string, t: string)
    requires IsUpperWord(t)
    ensures Contains(ToUpperCase(s), t) <==> OccursIgnoringCase(s, t)
  {
    var u := ToUpperCase(s);
    if i :| OccursAt(u, t, i) {
      assert EqualIgnoringCase(s[i..i + |t|], t) by {
        forall k | 0 <= k < |t| ensures SameIgnoringCase(s[i..i + |t|][k], t[k]) {
          assert u[i + k] == t[k];
        }
      }
      assert OccursIgnoringCaseAt(s, t, i);
    }
    if i :| OccursIgnoringCaseAt(s, t, i) {
      assert u[i..i + |t|] == t by {
        forall k | 0 <= k < |t| ensures u[i..i + |t|][k] == t[k] {
          assert SameIgnoringCase(s[i..i + |t|][k], t[k]);
          assert 'A' <= t[k] <= 'Z';
          assert u[i + k] == UpperChar(s[i + k]);
        }
      }
      assert OccursAt(u, t, i);
    }
  }

  /**
   * `String.replace(target, replacement)`: every occurrence of `target`, found
   * from left to right without overlap, is replaced. An empty target inserts
   * the replacement before every character and at the end.
   */
  function Replace(s: string, target: string, replacement: string): (r: string)
    ensures target != [] && replacement == [] ==> |r| <= |s|
    ensures target != [] && replacement == [] ==> forall k :: 0 <= k < |r| ==> r[k] in s
    decreases |s|
  {
    if target == [] then
      if s == [] then replacement else replacement + [s[0]] + Replace(s[1..], target, replacement)
    else if |s| < |target| then s
    else if s[..|target|] == target then replacement + Replace(s[|target|..], target, replacement)
    else [s[0]] + Replace(s[1..], target, replacement)
  }

  /** A string in which the target does not occur is returned unchanged. */
  lemma {:induction false} ReplaceWithoutOccurrence(s: string, target: string, replacement: string)
    requires target != [] && !Contains(s, target)
    ensures Replace(s, target, replacement) == s
    decreases |s|
  {
    if |s| >= |target| {
      assert s[..|target|] != target;
      assert !Contains(s[1..], target) by { ShiftOccurrence(s, target); }
      ReplaceWithoutOccurrence(s[1..], target, replacement);
    }
  }

  /** A leading occurrence of the target is replaced, and the search resumes right after it. */
  lemma ReplaceLeading(target: string, s: string, replacement: string)
    requires target != []
    ensures Replace(target + s, target, replacement) == replacement + Replace(s, target, replacement)
  {
    assert (target + s)[..|target|] == target;
    assert (target + s)[|target|..] == s;
  }

  /**
   * The first occurrence of the target is replaced, and the text before it is
   * kept: `x` followed by all but the last character of the target holds no
   * occurrence, so the left-to-right scan meets none before the one after `x`.
   */
  lemma {:induction false} ReplaceFirstOccurrence(x: string, target: string, y: string, replacement: string)
    requires target != [] && !Contains(x + target[..|target| - 1], target)
    ensures Replace(x + target + y, target, replacement) == x + replacement + Replace(y, target, replacement)
    decreases |x|
  {
    var rest := Replace(y, target, replacement);
    if x == [] {
      assert x + target + y == target + y;
      ReplaceLeading(target, y, replacement);
    } else {
      var s := x + target + y;
      var w := x + target[..|target| - 1];
      assert !OccursAt(w, target, 0);
      assert s[..|target|] == w[..|target|];
      assert !Contains(x[1..] + target[..|target| - 1], target) by {
        assert w[1..] == x[1..] + target[..|target| - 1];
        ShiftOccurrence(w, target);
      }
      ReplaceFirstOccurrence(x[1..], target, y, replacement);
      DropFirst(x, target, y);
      ReplaceSkip(s, target, replacement);
      RejoinFirst(x, replacement, rest);
    }
  }

  /** Dropping the first character of `x + t + y`, with `x` non-empty, drops it from `x`. */
  lemma DropFirst(x: string, t: string, y: string)
    requires x != []
    ensures (x + t + y)[0] == x[0] && (x + t + y)[1..] == x[1..] + t + y
  {
  }

  /** The kept first character rejoins the rest of `x`. */
  lemma RejoinFirst(x: string, replacement: string, rest: string)
    requires x != []
    ensures [x[0]] + (x[1..] + replacement + rest) == x + replacement + rest
  {
  }

  /** Where the target does not start the string, its first character is kept and the scan moves on. */
  lemma ReplaceSkip(s: string, target: string, replacement: string)
    requires target != [] && |s| >= |target| && s[..|target|] != target
    ensures Replace(s, target, replacement) == [s[0]] + Replace(s[1..], target, replacement)
  {
  }

  /** A word with a character that `s` lacks does not occur in `s`. */
  lemma AbsentCharacter(s: string, t: string, j: nat)
    requires j < |t| && t[j] !in s
    ensures !Contains(s, t)
  {
  }

  /**
   * The pieces of `s` between occurrences of `sep`, empty pieces included
   * (one more piece than there are separators).
   */
  function Fields(s: string, sep: char): (r: seq<string>)
    ensures |r| >= 1
    ensures forall k :: 0 <= k < |r| ==> sep !in r[k]
    decreases |s|
  {
    if s == [] then [[]]
    else
      var rest := Fields(s[1..], sep);
      if s[0] == sep then [[]] + rest else [[s[0]] + rest[0]] + rest[1..]
  }

  /** The pieces written back with `sep` between consecutive ones. */
  function Join(parts: seq<string>, sep: char): string
    requires |parts| >= 1
  {
    if |parts| == 1 then parts[0] else parts[0] + [sep] + Join(parts[1..], sep)
  }

  /** Three separator-free parts joined by the separator come back as exactly those parts. */
  lemma FieldsOfThree(a: string, b: string, c: string, sep: char)
    requires sep !in a && sep !in b && sep !in c
    ensures Fields(a + [sep] + b + [sep] + c, sep) == [a, b, c]
  {
    var tail := b + [sep] + c;
    FieldsWithoutSeparator(c, sep);
    FieldsAfterSeparator(b, sep, c);
    assert Fields(tail, sep) == [b, c];
    assert a + [sep] + b + [sep] + c == a + [sep] + tail;
    FieldsAfterSeparator(a, sep, tail);
    assert [a] + [b, c] == [a, b, c];
  }

  /** Joining the fields of a string gives the string back. */
  lemma {:induction false} JoinFields(s: string, sep: char)
    ensures Join(Fields(s, sep), sep) == s
    decreases |s|
  {
    if s != [] {
      var rest := Fields(s[1..], sep);
      JoinFields(s[1..], sep);
      if s[0] == sep {
        assert Fields(s, sep)[1..] == rest;
      } else if |rest| > 1 {
        assert Fields(s, sep)[1..] == rest[1..];
        assert Join(rest, sep) == rest[0] + [sep] + Join(rest[1..], sep);
      }
    }
  }

  /** A string without the separator is a single field. */
  lemma {:induction false} FieldsWithoutSeparator(s: string, sep: char)
    requires sep !in s
    ensures Fields(s, sep) == [s]
    decreases |s|
  {
    if s != [] {
      FieldsWithoutSeparator(s[1..], sep);
      assert [s[0]] + s[1..] == s;
    }
  }

  /** A separator-free prefix followed by a separator is the first field. */
  lemma {:induction false} FieldsAfterSeparator(a: string, sep: char, b: string)
    requires sep !in a
    ensures Fields(a + [sep] + b, sep) == [a] + Fields(b, sep)
    decreases |a|
  {
    if a == [] {
      assert a + [sep] + b == [sep] + b;
      assert ([sep] + b)[1..] == b;
    } else {
      FieldsAfterSeparator(a[1..], sep, b);
      assert (a + [sep] + b)[1..] == a[1..] + [sep] + b;
      assert [a[0]] + a[1..] == a;
    }
  }

  /** Java's `split` with limit 0 removes every trailing empty string. */
  function DropTrailingEmpty(parts: seq<string>): (r: seq<string>)
    ensures r <= parts
    ensures r != [] ==> r[|r| - 1] != []
    ensures forall k :: |r| <= k < |parts| ==> parts[k] == []
  {
    if parts != [] && parts[|parts| - 1] == [] then DropTrailingEmpty(parts[..|parts| - 1]) else parts
  }

  /**
   * `String.split(sep)` for a one-character pattern: a string without the
   * separator is returned as the only element (even when it is empty);
   * otherwise the fields with trailing empty ones removed, possibly none at all.
   */
  function Split(s: string, sep: char): (r: seq<string>)
    ensures forall k :: 0 <= k < |r| ==> sep !in r[k]
    ensures sep in s && r != [] ==> r[|r| - 1] != []
  {
    if sep !in s then [s] else DropTrailingEmpty(Fields(s, sep))
  }

  /** Joining two non-empty lists of pieces puts one separator between them. */
  lemma {:induction false} JoinAppend(a: seq<string>, b: seq<string>, sep: char)
    requires |a| >= 1 && |b| >= 1
    ensures Join(a + b, sep) == Join(a, sep) + [sep] + Join(b, sep)
    decreases |a|
  {
    if |a| > 1 {
      assert (a + b)[1..] == a[1..] + b;
      JoinAppend(a[1..], b, sep);
    }
  }

  /** Joining only empty pieces yields nothing but separators. */
  lemma {:induction false} JoinEmpties(parts: seq<string>, sep: char)
    requires |parts| >= 1 && forall k :: 0 <= k < |parts| ==> parts[k] == []
    ensures forall k :: 0 <= k < |Join(parts, sep)| ==> Join(parts, sep)[k] == sep
    decreases |parts|
  {
    if |parts| > 1 {
      JoinEmpties(parts[1..], sep);
    }
  }

  /**
   * What `Split` returns loses nothing but trailing separators: the string is
   * the joined pieces followed by separators only (and only separators when
   * nothing is returned).
   */
  lemma SplitJoin(s: string, sep: char)
    ensures var r := Split(s, sep);
      if r == [] then forall k :: 0 <= k < |s| ==> s[k] == sep
      else
        var j := Join(r, sep);
        |j| <= |s| && s[..|j|] == j && forall k :: |j| <= k < |s| ==> s[k] == sep
  {
    if sep in s {
      var parts := Fields(s, sep);
      var r := DropTrailingEmpty(parts);
      JoinFields(s, sep);
      if r == [] {
        JoinEmpties(parts, sep);
      } else if |r| < |parts| {
        assert r == parts[..|r|];
        JoinDroppedEmpties(parts, |r|, sep);
      }
    }
  }

  /** Joining pieces whose tail from `n` on is empty adds only separators after the first `n`. */
  lemma JoinDroppedEmpties(parts: seq<string>, n: nat, sep: char)
    requires 1 <= n < |parts| && forall k :: n <= k < |parts| ==> parts[k] == []
    ensures var j := Join(parts[..n], sep);
      var all := Join(parts, sep);
      |j| <= |all| && all[..|j|] == j && forall k :: |j| <= k < |all| ==> all[k] == sep
  {
    var r := parts[..n];
    var tail := parts[n..];
    assert parts == r + tail;
    JoinAppend(r, tail, sep);
    JoinEmpties(tail, sep);
    var j := Join(r, sep);
    var all := Join(parts, sep);
    forall k | |j| <= k < |all| ensures all[k] == sep {
      if k > |j| {
        assert all[k] == Join(tail, sep)[k - |j| - 1];
      }
    }
  }

  /** `a + sep + b` with separator-free, non-empty `b` splits into exactly `[a, b]`. */
  lemma SplitTwo(a: string, sep: char, b: string)
    requires sep !in a && sep !in b && b != []
    ensures Split(a + [sep] + b, sep) == [a, b]
  {
    FieldsAfterSeparator(a, sep, b);
    FieldsWithoutSeparator(b, sep);
    assert sep in a + [sep] + b by { assert (a + [sep] + b)[|a|] == sep; }
  }

  /** A trailing separator produces no second piece: `a + sep` splits into `[a]`, or `[]` when `a` is empty. */
  lemma SplitTrailingSeparator(a: string, sep: char)
    requires sep !in a
    ensures Split(a + [sep], sep) == if a == [] then [] else [a]
  {
    FieldsAfterSeparator(a, sep, []);
    assert a + [sep] + [] == a + [sep];
    assert sep in a + [sep] by { assert (a + [sep])[|a|] == sep; }
    assert Fields(a + [sep], sep) == [a, []];
    assert DropTrailingEmpty([a, []]) == DropTrailingEmpty([a]);
  }

  /** `a + sep + b + sep + c`: only the first two pieces matter to a caller reading indices 0 and 1. */
  lemma SplitThree(a: string, sep: char, b: string, c: string)
    requires sep !in a && sep !in b
    ensures var r := Split(a + [sep] + b + [sep] + c, sep);
      |r| >= 2 || (b == [] && |r| <= 1)
    ensures var r := Split(a + [sep] + b + [sep] + c, sep);
      |r| >= 2 ==> r[0] == a && r[1] == b
  {
    var s := a + [sep] + b + [sep] + c;
    assert s == a + [sep] + (b + [sep] + c);
    FieldsAfterSeparator(a, sep, b + [sep] + c);
    FieldsAfterSeparator(b, sep, c);
    var parts := Fields(s, sep);
    assert parts == [a, b] + Fields(c, sep);
    assert sep in s by { assert s[|a|] == sep; }
    var r := DropTrailingEmpty(parts);
    assert r <= parts;
    if b != [] {
      assert parts[1] != [];
    }
  }
}
