/**
 * Python's `str.split(sep)`, `sep.join(parts)` and `str.replace(pattern, replacement)`
 * on strings, for a non-empty separator or pattern. `split` and `replace` both
 * scan left to right and consume non-overlapping occurrences, which is why
 * `s.replace(p, n) == n.join(s.split(p))` (ReplaceIsJoinOfSplit).
 */
module Text {

  /** `sep` occurs somewhere in `s` as a contiguous substring. */
  predicate Occurs(s: string, sep: string)
    decreases |s|
  {
    |sep| <= |s| && (s[..|sep|] == sep || (s != [] && Occurs(s[1..], sep)))
  }

  /** `s.split(sep)`: the pieces between the leftmost non-overlapping occurrences of `sep`. */
  function Split(s: string, sep: string): (parts: seq<string>)
    requires sep != []
    ensures |parts| >= 1
    ensures parts[0] <= s
    decreases |s|
  {
    if |s| < |sep| then [s]
    else if s[..|sep|] == sep then [[]] + Split(s[|sep|..], sep)
    else
      var rest := Split(s[1..], sep);
      [[s[0]] + rest[0]] + rest[1..]
  }

  /** `sep.join(parts)`. */
  function Join(parts: seq<string>, sep: string): string
    requires |parts| >= 1
  {
    if |parts| == 1 then parts[0] else parts[0] + sep + Join(parts[1..], sep)
  }

  /** `s.replace(pattern, replacement)`: every non-overlapping occurrence, left to right. */
  function Replace(s: string, pattern: string, replacement: string): string
    requires pattern != []
    decreases |s|
  {
    if |s| < |pattern| then s
    else if s[..|pattern|] == pattern then replacement + Replace(s[|pattern|..], pattern, replacement)
    else [s[0]] + Replace(s[1..], pattern, replacement)
  }

  /** Gluing a character onto the first piece glues it onto the joined string. */
  lemma {:induction false} JoinConsFirst(c: char, rest: seq<string>, sep: string)
    requires |rest| >= 1
    ensures Join([[c] + rest[0]] + rest[1..], sep) == [c] + Join(rest, sep)
  {
    var parts := [[c] + rest[0]] + rest[1..];
    if |rest| > 1 {
      assert parts[1..] == rest[1..];
    }
  }

  /** An empty first piece contributes only the separator. */
  lemma {:induction false} JoinConsEmpty(rest: seq<string>, sep: string)
    requires |rest| >= 1
    ensures Join([[]] + rest, sep) == sep + Join(rest, sep)
  {
    assert ([[]] + rest)[1..] == rest;
  }

  /** Joining after appending one piece appends the separator and that piece. */
  lemma {:induction false} JoinSnoc(parts: seq<string>, last: string, sep: string)
    requires |parts| >= 1
    ensures Join(parts + [last], sep) == Join(parts, sep) + sep + last
  {
    if |parts| > 1 {
      assert (parts + [last])[1..] == parts[1..] + [last];
      JoinSnoc(parts[1..], last, sep);
    }
  }

  /** Two pieces join around one separator. */
  lemma JoinOfTwo(a: string, b: string, sep: string)
    ensures Join([a, b], sep) == a + sep + b
  {
    assert [a, b][1..] == [b];
  }

  /** Joining after appending two pieces appends each with its separator. */
  lemma JoinLastTwo(parts: seq<string>, a: string, b: string, sep: string)
    requires |parts| >= 1
    ensures Join(parts + [a] + [b], sep) == Join(parts, sep) + (sep + a + sep + b)
  {
    JoinSnoc(parts + [a], b, sep);
    JoinSnoc(parts, a, sep);
  }

  /** Splitting and joining again with the same separator gives back the string. */
  lemma {:induction false} SplitJoin(s: string, sep: string)
    requires sep != []
    ensures Join(Split(s, sep), sep) == s
  {
    if |s| < |sep| {
    } else if s[..|sep|] == sep {
      var rest := Split(s[|sep|..], sep);
      SplitJoin(s[|sep|..], sep);
      JoinConsEmpty(rest, sep);
      assert s == sep + s[|sep|..];
    } else {
      var rest := Split(s[1..], sep);
      SplitJoin(s[1..], sep);
      JoinConsFirst(s[0], rest, sep);
      assert s == [s[0]] + s[1..];
    }
  }

  /** No piece of a split contains the separator. */
  lemma {:induction false} SplitPiecesFree(s: string, sep: string)
    requires sep != []
    ensures forall i :: 0 <= i < |Split(s, sep)| ==> !Occurs(Split(s, sep)[i], sep)
  {
    var parts := Split(s, sep);
    if |s| < |sep| {
      assert !Occurs(s, sep);
    } else if s[..|sep|] == sep {
      SplitPiecesFree(s[|sep|..], sep);
      assert !Occurs([], sep);
      assert forall i :: 1 <= i < |parts| ==> parts[i] == Split(s[|sep|..], sep)[i - 1];
    } else {
      var rest := Split(s[1..], sep);
      SplitPiecesFree(s[1..], sep);
      var first := [s[0]] + rest[0];
      assert first <= s;
      // A leading occurrence in `first` would be a leading occurrence in `s`.
      assert |sep| <= |first| ==> first[..|sep|] == s[..|sep|];
      assert first[1..] == rest[0];
      assert !Occurs(first, sep);
      assert forall i :: 1 <= i < |parts| ==> parts[i] == rest[i];
    }
  }

  /** A string without the separator splits into itself alone. */
  lemma {:induction false} SplitWithoutSeparator(s: string, sep: string)
    requires sep != []
    requires !Occurs(s, sep)
    ensures Split(s, sep) == [s]
  {
    if |s| >= |sep| {
      SplitWithoutSeparator(s[1..], sep);
      assert [s[0]] + s[1..] == s;
    }
  }

  /** `Occurs` on a one-character separator is membership of that character. */
  lemma {:induction false} OccursChar(s: string, c: char)
    ensures Occurs(s, [c]) <==> c in s
  {
    if s != [] {
      OccursChar(s[1..], c);
      assert s == [s[0]] + s[1..];
    }
  }

  /** A character-free prefix followed by the separator character splits off as one piece. */
  lemma {:induction false} SplitAfterPiece(p: string, c: char, t: string)
    requires c !in p
    ensures Split(p + [c] + t, [c]) == [p] + Split(t, [c])
  {
    var s := p + [c] + t;
    if p == [] {
      assert s == [c] + t && s[..1] == [c] && s[1..] == t;
    } else {
      assert s[..1] == [p[0]] && s[1..] == p[1..] + [c] + t;
      SplitAfterPiece(p[1..], c, t);
      assert [p[0]] + p[1..] == p;
    }
  }

  /**
   * For a one-character separator the split is the unique inverse of join:
   * character-free pieces are recovered exactly from their join.
   */
  lemma {:induction false} SplitOfJoin(parts: seq<string>, c: char)
    requires |parts| >= 1
    requires forall i :: 0 <= i < |parts| ==> c !in parts[i]
    ensures Split(Join(parts, [c]), [c]) == parts
  {
    if |parts| == 1 {
      OccursChar(parts[0], c);
      SplitWithoutSeparator(parts[0], [c]);
    } else {
      SplitOfJoin(parts[1..], c);
      SplitAfterPiece(parts[0], c, Join(parts[1..], [c]));
      assert [parts[0]] + parts[1..] == parts;
    }
  }

  /** `s.replace(p, n)` is `n.join(s.split(p))`. */
  lemma {:induction false} ReplaceIsJoinOfSplit(s: string, pattern: string, replacement: string)
    requires pattern != []
    ensures Replace(s, pattern, replacement) == Join(Split(s, pattern), replacement)
  {
    if |s| < |pattern| {
    } else if s[..|pattern|] == pattern {
      ReplaceIsJoinOfSplit(s[|pattern|..], pattern, replacement);
      JoinConsEmpty(Split(s[|pattern|..], pattern), replacement);
    } else {
      ReplaceIsJoinOfSplit(s[1..], pattern, replacement);
      JoinConsFirst(s[0], Split(s[1..], pattern), replacement);
    }
  }

  /** Text without the pattern is left unchanged by a replace. */
  lemma {:induction false} ReplaceWithoutPattern(s: string, pattern: string, replacement: string)
    requires pattern != []
    requires !Occurs(s, pattern)
    ensures Replace(s, pattern, replacement) == s
  {
    ReplaceIsJoinOfSplit(s, pattern, replacement);
    SplitWithoutSeparator(s, pattern);
  }
}
