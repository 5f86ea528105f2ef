/**
 * The parts of Go's `strings` package the system calls, over `seq<char>`:
 * ASCII upper-casing, `HasPrefix`, `Split` and `Replace(s, old, new, -1)`.
 * `Join`, which the code does not call, is the reference the `Split` and
 * replacement lemmas are stated against.
 */
module Strings {

  /** Upper-cases one ASCII letter and leaves every other character alone. */
  function UpperChar(c: char): char {
    if 'a' <= c <= 'z' then (c as int - 32) as char else c
  }

  /** `strings.ToUpper`, restricted to ASCII case folding. */
  function Upper(s: string): (r: string)
    ensures |r| == |s|
    ensures forall i :: 0 <= i < |s| ==> r[i] == UpperChar(s[i])
  {
    seq(|s|, i requires 0 <= i < |s| => UpperChar(s[i]))
  }

  /** `strings.HasPrefix(s, prefix)`. */
  predicate HasPrefix(s: string, prefix: string) {
    |prefix| <= |s| && s[..|prefix|] == prefix
  }

  /** `t` occurs somewhere in `s`. */
  predicate Occurs(s: string, t: string) {
    exists i :: 0 <= i <= |s| && HasPrefix(s[i..], t)
  }

  /**
   * `strings.Split(s, sep)` for a non-empty separator: the pieces between the
   * leftmost non-overlapping occurrences of `sep`, always at least one piece.
   */
  function Split(s: string, sep: string): (parts: seq<string>)
    requires |sep| > 0
    ensures |parts| >= 1
    decreases |s|
  {
    if |s| < |sep| then [s]
    else if s[..|sep|] == sep then [""] + Split(s[|sep|..], sep)
    else
      var rest := Split(s[1..], sep);
      [[s[0]] + rest[0]] + rest[1..]
  }

  /** `strings.Join(parts, sep)`. */
  function Join(parts: seq<string>, sep: string): string {
    if |parts| == 0 then ""
    else if |parts| == 1 then parts[0]
    else parts[0] + sep + Join(parts[1..], sep)
  }

  /**
   * `strings.Replace(s, pattern, replacement, -1)` for a non-empty pattern: scanning left to
   * right, every occurrence of `pattern` that does not overlap an earlier
   * replaced one becomes `replacement`.
   */
  function ReplaceAll(s: string, pattern: string, replacement: string): string
    requires |pattern| > 0
    decreases |s|
  {
    if |s| < |pattern| then s
    else if s[..|pattern|] == pattern then replacement + ReplaceAll(s[|pattern|..], pattern, replacement)
    else [s[0]] + ReplaceAll(s[1..], pattern, replacement)
  }

  /** Prepending a character to the first piece prepends it to the join. */
  lemma JoinConsHead(c: char, p: string, ps: seq<string>, sep: string)
    ensures Join([[c] + p] + ps, sep) == [c] + Join([p] + ps, sep)
  {
    if |ps| > 0 {
      assert ([[c] + p] + ps)[1..] == ps;
      assert ([p] + ps)[1..] == ps;
    }
  }

  /** Replacing every `pattern` by `replacement` is splitting on `pattern` and joining with `replacement`. */
  lemma {:induction false} ReplaceAllIsSplitJoin(s: string, pattern: string, replacement: string)
    requires |pattern| > 0
    ensures ReplaceAll(s, pattern, replacement) == Join(Split(s, pattern), replacement)
    decreases |s|
  {
    if |s| < |pattern| {
    } else if s[..|pattern|] == pattern {
      var rest := Split(s[|pattern|..], pattern);
      assert Split(s, pattern) == [""] + rest;
      assert ReplaceAll(s, pattern, replacement) == replacement + ReplaceAll(s[|pattern|..], pattern, replacement);
      ReplaceAllIsSplitJoin(s[|pattern|..], pattern, replacement);
      assert ([""] + rest)[1..] == rest;
      assert Join([""] + rest, replacement) == "" + replacement + Join(rest, replacement);
    } else {
      var rest := Split(s[1..], pattern);
      assert Split(s, pattern) == [[s[0]] + rest[0]] + rest[1..];
      assert ReplaceAll(s, pattern, replacement) == [s[0]] + ReplaceAll(s[1..], pattern, replacement);
      ReplaceAllIsSplitJoin(s[1..], pattern, replacement);
      JoinConsHead(s[0], rest[0], rest[1..], replacement);
      assert [rest[0]] + rest[1..] == rest;
    }
  }

  /** Replacing `pattern` by itself changes nothing. */
  lemma {:induction false} ReplaceAllSelf(s: string, pattern: string)
    requires |pattern| > 0
    ensures ReplaceAll(s, pattern, pattern) == s
    decreases |s|
  {
    if |s| < |pattern| {
    } else if s[..|pattern|] == pattern {
      ReplaceAllSelf(s[|pattern|..], pattern);
      assert s[..|pattern|] + s[|pattern|..] == s;
    } else {
      ReplaceAllSelf(s[1..], pattern);
      assert [s[0]] + s[1..] == s;
    }
  }

  /** Joining the pieces of a split with the same separator gives back the input. */
  lemma JoinSplit(s: string, sep: string)
    requires |sep| > 0
    ensures Join(Split(s, sep), sep) == s
  {
    ReplaceAllIsSplitJoin(s, sep, sep);
    ReplaceAllSelf(s, sep);
  }

  /** A string in which `pattern` never occurs is left unchanged by the replacement. */
  lemma {:induction false} ReplaceAllAbsent(s: string, pattern: string, replacement: string)
    requires |pattern| > 0
    requires !Occurs(s, pattern)
    ensures ReplaceAll(s, pattern, replacement) == s
    decreases |s|
  {
    if |s| >= |pattern| {
      assert s[0..] == s;
      assert s[..|pattern|] != pattern;
      forall i | 0 <= i <= |s[1..]|
        ensures !HasPrefix(s[1..][i..], pattern)
      {
        assert s[1..][i..] == s[i + 1..];
      }
      ReplaceAllAbsent(s[1..], pattern, replacement);
    }
  }

  /**
   * Splitting on one character `c` yields exactly one more piece than there
   * are `c`s in the input, and no piece contains `c`.
   */
  lemma {:induction false} SplitOnChar(s: string, c: char)
    ensures |Split(s, [c])| == multiset(s)[c] + 1
    ensures forall k :: 0 <= k < |Split(s, [c])| ==> c !in Split(s, [c])[k]
    decreases |s|
  {
    if |s| == 0 {
    } else {
      assert s == [s[0]] + s[1..];
      SplitOnChar(s[1..], c);
      var rest := Split(s[1..], [c]);
      if s[..1] == [c] {
        assert Split(s, [c]) == [""] + rest;
      } else {
        assert s[0] != c;
        assert Split(s, [c]) == [[s[0]] + rest[0]] + rest[1..];
      }
    }
  }

  /**
   * Splitting at a head that does not contain the separator's first
   * character: the head is the first piece.
   */
  lemma {:induction false} SplitAtFirstSeparator(head: string, sep: string, rest: string)
    requires |sep| > 0 && sep[0] !in head
    ensures Split(head + sep + rest, sep) == [head] + Split(rest, sep)
    decreases |head|
  {
    var s := head + sep + rest;
    if |head| == 0 {
      assert s[..|sep|] == sep;
      assert s[|sep|..] == rest;
    } else {
      assert s[..|sep|] != sep by { assert s[..|sep|][0] == head[0]; }
      assert s[1..] == head[1..] + sep + rest;
      SplitAtFirstSeparator(head[1..], sep, rest);
      assert [s[0]] + head[1..] == head;
    }
  }

  /**
   * Every occurrence is replaced: pieces joined by the pattern, none of which
   * could start or hide an occurrence, come out joined by the replacement.
   */
  lemma {:induction false} ReplaceAllJoin(pieces: seq<string>, pattern: string, replacement: string)
    requires |pattern| > 0 && |pieces| >= 1
    requires forall k :: 0 <= k < |pieces| - 1 ==> pattern[0] !in pieces[k]
    requires !Occurs(pieces[|pieces| - 1], pattern)
    ensures ReplaceAll(Join(pieces, pattern), pattern, replacement) == Join(pieces, replacement)
    decreases |pieces|
  {
    if |pieces| == 1 {
      ReplaceAllAbsent(pieces[0], pattern, replacement);
    } else {
      var rest := pieces[1..];
      ReplaceAllAtFirstOccurrence(pieces[0], pattern, Join(rest, pattern), replacement);
      assert forall k :: 0 <= k < |rest| - 1 ==> pattern[0] !in rest[k] by {
        forall k | 0 <= k < |rest| - 1
          ensures pattern[0] !in rest[k]
        {
          assert rest[k] == pieces[k + 1];
        }
      }
      assert rest[|rest| - 1] == pieces[|pieces| - 1];
      ReplaceAllJoin(rest, pattern, replacement);
    }
  }

  /** A string shorter than `t` cannot contain it. */
  lemma ShorterHasNoOccurrence(s: string, t: string)
    requires |s| < |t|
    ensures !Occurs(s, t)
  {
    forall i | 0 <= i <= |s|
      ensures !HasPrefix(s[i..], t)
    {
    }
  }

  /**
   * Replacement scans left to right: a head free of the pattern's first
   * character is kept, the occurrence after it is replaced, and the rest is
   * replaced independently.
   */
  lemma ReplaceAllAtFirstOccurrence(head: string, pattern: string, tail: string, replacement: string)
    requires |pattern| > 0 && pattern[0] !in head
    ensures ReplaceAll(head + pattern + tail, pattern, replacement) ==
      head + replacement + ReplaceAll(tail, pattern, replacement)
  {
    ReplaceAllIsSplitJoin(head + pattern + tail, pattern, replacement);
    ReplaceAllIsSplitJoin(tail, pattern, replacement);
    SplitAtFirstSeparator(head, pattern, tail);
    var rest := Split(tail, pattern);
    assert ([head] + rest)[1..] == rest;
  }

  /** A string without `c` splits on `c` into itself alone. */
  lemma {:induction false} SplitWithoutSeparator(s: string, c: char)
    requires c !in s
    ensures Split(s, [c]) == [s]
    decreases |s|
  {
    if |s| > 0 {
      assert s[..1][0] == s[0];
      SplitWithoutSeparator(s[1..], c);
      assert [s[0]] + s[1..] == s;
    }
  }

  /** Joining pieces free of `c` with `c` and splitting again gives back the pieces. */
  lemma {:induction false} SplitJoin(parts: seq<string>, c: char)
    requires |parts| >= 1
    requires forall k :: 0 <= k < |parts| ==> c !in parts[k]
    ensures Split(Join(parts, [c]), [c]) == parts
    decreases |parts|
  {
    if |parts| == 1 {
      SplitWithoutSeparator(parts[0], c);
    } else {
      SplitJoin(parts[1..], c);
      SplitAtFirstSeparator(parts[0], [c], Join(parts[1..], [c]));
      assert [parts[0]] + parts[1..] == parts;
    }
  }
}
