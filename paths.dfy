/**
 * The user-identifier rule every handler applies to the request URL:
 * `path.strip('/').split('/')`, and when there are at least two segments and
 * the second-to-last is `users`, the last segment is the identifier.
 */
module Paths {
  import opened Wrappers
  import Text

  const Slash: char := '/'
  const UsersSegment: string := "users"

  /** The collection segment is a non-empty run of letters: it holds no slash. */
  lemma UsersSegmentShape()
    ensures |UsersSegment| == 5
    ensures Slash !in UsersSegment
  {
    assert UsersSegment == ['u', 's', 'e', 'r', 's'];
  }

  /** Every character of `s` is a slash. */
  predicate AllSlashes(s: string) {
    forall k :: 0 <= k < |s| ==> s[k] == Slash
  }

  /** `s.lstrip('/')`: the suffix of `s` left after its leading slashes. */
  function StripLeading(s: string): (r: string)
    ensures |r| <= |s| && r == s[|s| - |r|..]
    ensures AllSlashes(s[..|s| - |r|])
    ensures r == [] || r[0] != Slash
    decreases |s|
  {
    if s != [] && s[0] == Slash then
      var r := StripLeading(s[1..]);
      assert s[|s| - |r|..] == s[1..][|s| - 1 - |r|..];
      assert s[..|s| - |r|] == [Slash] + s[1..][..|s| - 1 - |r|];
      r
    else
      s
  }

  /** `s.rstrip('/')`: the prefix of `s` left before its trailing slashes. */
  function StripTrailing(s: string): (r: string)
    ensures |r| <= |s| && r == s[..|r|]
    ensures AllSlashes(s[|r|..])
    ensures r == [] || r[|r| - 1] != Slash
    decreases |s|
  {
    if s != [] && s[|s| - 1] == Slash then
      var r := StripTrailing(s[..|s| - 1]);
      assert s[..|r|] == s[..|s| - 1][..|r|];
      assert s[|r|..] == s[..|s| - 1][|r|..] + [Slash];
      r
    else
      s
  }

  /** `s.strip('/')`: it neither starts nor ends with a slash. */
  function Strip(s: string): (r: string)
    ensures r == [] || (r[0] != Slash && r[|r| - 1] != Slash)
  {
    var l := StripLeading(s);
    var r := StripTrailing(l);
    assert r != [] ==> r[0] == l[0];
    r
  }

  /**
   * `Strip(s)` is the middle of `s` once a run of slashes is taken off each end,
   * and it neither starts nor ends with a slash; these two facts determine it.
   */
  lemma StripShape(s: string)
    ensures var r := Strip(s);
      (r == [] || (r[0] != Slash && r[|r| - 1] != Slash)) &&
      exists i, j :: 0 <= i <= j <= |s| && r == s[i..j] && AllSlashes(s[..i]) && AllSlashes(s[j..])
  {
    var l := StripLeading(s);
    var r := StripTrailing(l);
    var i := |s| - |l|;
    var j := i + |r|;
    assert r == s[i..j] by {
      assert l == s[i..];
      assert r == l[..|r|];
    }
    assert AllSlashes(s[j..]) by {
      assert s[j..] == l[|r|..];
    }
    assert 0 <= i <= j <= |s| && r == s[i..j] && AllSlashes(s[..i]) && AllSlashes(s[j..]);
  }

  /** Stripping twice is stripping once. */
  lemma StripIdempotent(s: string)
    ensures Strip(Strip(s)) == Strip(s)
  {
    var r := Strip(s);
    assert StripLeading(r) == r;
    assert StripTrailing(r) == r by {
      if r != [] {
        assert r[0] != Slash;
      }
    }
  }

  /** The path segments: `path.strip('/').split('/')`. */
  function Segments(path: string): (parts: seq<string>)
    ensures |parts| >= 1
  {
    Text.Split(Strip(path), [Slash])
  }

  /** The identifier taken from the request URL, before the handlers' `if not user_id` test. */
  function ExtractUserId(path: string): Option<string> {
    var parts := Segments(path);
    if |parts| >= 2 && parts[|parts| - 2] == UsersSegment then Some(parts[|parts| - 1]) else None
  }

  /** The handlers' `if not user_id`: no identifier, or an empty one. */
  predicate MissingUserId(id: Option<string>) {
    id.None? || id.value == []
  }

  /** `if not user_id` fails exactly when no identifier was extracted. */
  lemma MissingIffNoId(path: string)
    ensures MissingUserId(ExtractUserId(path)) <==> ExtractUserId(path).None?
  {
    UserIdWellFormed(path);
  }

  /**
   * `t` ends in the segments `users` and `id`: either `t` is `users/<id>`, or it
   * ends in `/users/<id>`; and `id` holds no slash.
   */
  predicate NamesUser(t: string, id: string) {
    Slash !in id &&
    (t == UsersSegment + [Slash] + id ||
     (|t| >= |id| + 7 && t[|t| - |id| - 7..] == [Slash] + UsersSegment + [Slash] + id))
  }

  /** An extracted identifier is never empty and never contains a slash. */
  lemma UserIdWellFormed(path: string)
    ensures ExtractUserId(path).Some? ==> ExtractUserId(path).value != []
    ensures ExtractUserId(path).Some? ==> Slash !in ExtractUserId(path).value
  {
    if ExtractUserId(path).Some? {
      var t := Strip(path);
      var parts := Segments(path);
      var n := |parts|;
      var front, id := parts[..n - 1], parts[n - 1];
      assert ExtractUserId(path).value == id;
      assert Slash !in id by {
        SplitSlashFree(t);
      }
      assert t == Text.Join(front, [Slash]) + [Slash] + id by {
        Text.SplitJoin(t, [Slash]);
        assert parts == front + [id];
        Text.JoinSnoc(front, id, [Slash]);
      }
      // `t` is `... + "/" + id`; an empty `id` would leave `t` ending in a slash.
      assert t[|t| - |id| - 1] == Slash;
    }
  }

  /** All pieces of the split of `s` are free of slashes. */
  lemma SplitSlashFree(s: string)
    ensures forall i :: 0 <= i < |Text.Split(s, [Slash])| ==> Slash !in Text.Split(s, [Slash])[i]
  {
    var parts := Text.Split(s, [Slash]);
    Text.SplitPiecesFree(s, [Slash]);
    forall i | 0 <= i < |parts| ensures Slash !in parts[i] {
      Text.OccursChar(parts[i], Slash);
    }
  }

  /** The last two of `parts` are `users` and `id`. */
  predicate EndsInUser(parts: seq<string>, id: string) {
    |parts| >= 2 && parts[|parts| - 2] == UsersSegment && parts[|parts| - 1] == id
  }

  /** When the last two segments of `t` are `users` and `id`, `t` names that user. */
  lemma {:induction false} LastSegmentsNameUser(t: string, id: string)
    requires EndsInUser(Text.Split(t, [Slash]), id)
    ensures NamesUser(t, id)
  {
    var sep := [Slash];
    var parts := Text.Split(t, sep);
    var n := |parts|;
    assert Text.Join(parts, sep) == t by {
      Text.SplitJoin(t, sep);
    }
    assert Slash !in id by {
      SplitSlashFree(t);
      assert id == parts[n - 1];
    }
    if n == 2 {
      assert parts == [UsersSegment, id];
      Text.JoinOfTwo(UsersSegment, id, sep);
    } else {
      var front := parts[..n - 2];
      assert parts == front + [UsersSegment] + [id];
      Text.JoinLastTwo(front, UsersSegment, id, sep);
      var tail := sep + UsersSegment + sep + id;
      assert |tail| == |id| + 7 by {
        UsersSegmentShape();
      }
      SuffixOfConcat(Text.Join(front, sep), tail);
    }
  }

  /** `tail` is the suffix of `a + tail` of its own length. */
  lemma SuffixOfConcat(a: string, tail: string)
    ensures (a + tail)[|a + tail| - |tail|..] == tail
  {
  }

  /** The split of slash-free pieces joined by slashes gives the pieces back. */
  lemma SplitOfSlashJoin(pieces: seq<string>, t: string)
    requires |pieces| >= 1 && Text.Join(pieces, [Slash]) == t
    requires forall i :: 0 <= i < |pieces| ==> Slash !in pieces[i]
    ensures Text.Split(t, [Slash]) == pieces
  {
    forall i | 0 <= i < |pieces| ensures !Text.Occurs(pieces[i], [Slash]) {
      Text.OccursChar(pieces[i], Slash);
    }
    Text.SplitOfJoin(pieces, Slash);
  }

  /** `a/users/id` splits into the segments of `a` followed by `users` and `id`. */
  lemma {:induction false} SplitBeforeUser(a: string, id: string)
    requires Slash !in id
    ensures Text.Split(a + [Slash] + UsersSegment + [Slash] + id, [Slash]) ==
      Text.Split(a, [Slash]) + [UsersSegment, id]
  {
    UsersSegmentShape();
    var sep := [Slash];
    var front := Text.Split(a, sep);
    Text.SplitJoin(a, sep);
    SplitSlashFree(a);
    var pieces := front + [UsersSegment] + [id];
    Text.JoinSnoc(front + [UsersSegment], id, sep);
    Text.JoinSnoc(front, UsersSegment, sep);
    assert pieces == front + [UsersSegment, id];
    SplitOfSlashJoin(pieces, a + [Slash] + UsersSegment + [Slash] + id);
  }

  /** When `t` names user `id`, its last two segments are `users` and `id`. */
  lemma {:induction false} NamesUserLastSegments(t: string, id: string)
    requires NamesUser(t, id)
    ensures EndsInUser(Text.Split(t, [Slash]), id)
  {
    UsersSegmentShape();
    if t == UsersSegment + [Slash] + id {
      SplitOfTwo(UsersSegment, id);
    } else {
      var a := t[..|t| - |id| - 7];
      assert t == a + [Slash] + UsersSegment + [Slash] + id;
      SplitBeforeUser(a, id);
    }
  }

  /**
   * The identifier rule stated on the stripped path itself rather than on its
   * segments: an identifier `id` is extracted exactly when the stripped path
   * ends in the segments `users` and `id`.
   */
  lemma UserIdCharacterisation(path: string, id: string)
    ensures ExtractUserId(path) == Some(id) <==> NamesUser(Strip(path), id)
  {
    var t := Strip(path);
    var parts := Text.Split(t, [Slash]);
    assert Segments(path) == parts;
    ExtractIsEndsInUser(path, parts, id);
    if EndsInUser(parts, id) {
      LastSegmentsNameUser(t, id);
    }
    if NamesUser(t, id) {
      NamesUserLastSegments(t, id);
    }
  }

  /** Slashes added around a string that neither starts nor ends with one are stripped off again. */
  lemma StripAddedSlashes(t: string)
    requires t != [] && t[0] != Slash && t[|t| - 1] != Slash
    ensures Strip([Slash] + t) == t
    ensures Strip([Slash] + t + [Slash]) == t
  {
    assert ([Slash] + t)[1..] == t;
    assert StripLeading(t) == t;
    assert StripTrailing(t) == t;
    var u := [Slash] + t + [Slash];
    assert u[1..] == t + [Slash];
    assert StripLeading(t + [Slash]) == t + [Slash];
    assert (t + [Slash])[..|t|] == t;
    assert StripTrailing(t + [Slash]) == t;
  }

  /** The last two segments decide the identifier, whatever precedes them. */
  lemma ExtractFromSegments(path: string, parts: seq<string>)
    requires Segments(path) == parts && |parts| >= 1
    ensures ExtractUserId(path) ==
      if |parts| >= 2 && parts[|parts| - 2] == UsersSegment then Some(parts[|parts| - 1]) else None
  {
  }

  /** `id` is extracted exactly when the segments end in `users` and `id`. */
  lemma ExtractIsEndsInUser(path: string, parts: seq<string>, id: string)
    requires Segments(path) == parts
    ensures ExtractUserId(path) == Some(id) <==> EndsInUser(parts, id)
  {
    ExtractFromSegments(path, parts);
  }

  /** `/users/<id>` yields `id` for any non-empty, slash-free `id`. */
  lemma UsersPathYieldsId(id: string)
    requires id != [] && Slash !in id
    ensures ExtractUserId([Slash] + UsersSegment + [Slash] + id) == Some(id)
  {
    UsersSegmentShape();
    var path := [Slash] + UsersSegment + [Slash] + id;
    var t := UsersSegment + [Slash] + id;
    assert path == [Slash] + t;
    assert t[0] == UsersSegment[0] && t[|t| - 1] == id[|id| - 1];
    StripAddedSlashes(t);
    assert Strip(path) == t;
    var parts := [UsersSegment, id];
    SplitOfTwo(UsersSegment, id);
    assert Segments(path) == parts;
    ExtractFromSegments(path, parts);
    assert parts[|parts| - 2] == UsersSegment && parts[|parts| - 1] == id;
  }

  /** Leading slashes are stripped from the front of `a + x` as from `a`, and from `x` too when `a` is all slashes. */
  lemma {:induction false} StripLeadingAppend(a: string, x: string)
    ensures StripLeading(a + x) == if StripLeading(a) == [] then StripLeading(x) else StripLeading(a) + x
    decreases |a|
  {
    if a == [] {
      assert a + x == x;
    } else if a[0] == Slash {
      assert (a + x)[1..] == a[1..] + x;
      StripLeadingAppend(a[1..], x);
    }
  }

  /** One leading slash before a string that does not start with one is stripped off. */
  lemma StripLeadingSlash(y: string)
    requires y != [] && y[0] != Slash
    ensures StripLeading([Slash] + y) == y
  {
    assert ([Slash] + y)[1..] == y;
  }

  /** One trailing slash after a string that does not end in one is stripped off. */
  lemma StripTrailingSlash(m: string)
    requires m != [] && m[|m| - 1] != Slash
    ensures StripTrailing(m + [Slash]) == m
  {
    assert (m + [Slash])[..|m|] == m;
    assert StripTrailing(m) == m;
  }

  /** A slash on each side of `m` is stripped off, when `m` neither starts nor ends with one. */
  lemma StripEnclosingSlashes(m: string)
    requires m != [] && m[0] != Slash && m[|m| - 1] != Slash
    ensures StripLeading([Slash] + m + [Slash]) == m + [Slash]
    ensures StripTrailing(m + [Slash]) == m
  {
    assert [Slash] + m + [Slash] == [Slash] + (m + [Slash]);
    StripLeadingSlash(m + [Slash]);
    StripTrailingSlash(m);
  }

  /** One trailing slash after `l/<m>` is stripped off, when `m` does not end in a slash. */
  lemma StripTrailingAfterSegment(l: string, m: string)
    requires m != [] && m[|m| - 1] != Slash
    ensures StripTrailing(l + ([Slash] + m + [Slash])) == l + ([Slash] + m)
  {
    var x := l + ([Slash] + m);
    assert l + ([Slash] + m + [Slash]) == x + [Slash];
    assert x[|x| - 1] == m[|m| - 1];
    StripTrailingSlash(x);
  }

  /** `/<prefix>/<m>/` where `<prefix>` is all slashes strips to `m`, when `m` neither starts nor ends with a slash. */
  lemma StripSlashPrefixedPath(prefix: string, m: string)
    requires m != [] && m[0] != Slash && m[|m| - 1] != Slash
    requires StripLeading([Slash] + prefix) == []
    ensures Strip(([Slash] + prefix) + ([Slash] + m + [Slash])) == m
  {
    StripLeadingAppend([Slash] + prefix, [Slash] + m + [Slash]);
    StripEnclosingSlashes(m);
  }

  /** `/<prefix>/<m>/` where `<prefix>` holds a non-slash strips to `<prefix'>/<m>`, when `m` does not end in a slash. */
  lemma StripNamedPrefixedPath(prefix: string, m: string)
    requires m != [] && m[|m| - 1] != Slash
    requires StripLeading([Slash] + prefix) != []
    ensures Strip(([Slash] + prefix) + ([Slash] + m + [Slash])) == StripLeading([Slash] + prefix) + ([Slash] + m)
  {
    StripLeadingAppend([Slash] + prefix, [Slash] + m + [Slash]);
    StripTrailingAfterSegment(StripLeading([Slash] + prefix), m);
  }

  /** Regrouping a concatenation of four strings. */
  lemma Regroup(a: string, b: string, c: string, d: string)
    ensures a + (b + c + d) == a + b + c + d
  {
  }

  /** A string that ends in `/users/<id>` names that user. */
  lemma EndsInUserNamesUser(l: string, id: string)
    requires Slash !in id
    ensures NamesUser(l + ([Slash] + UsersSegment + [Slash] + id), id)
  {
    UsersSegmentShape();
    var tail := [Slash] + UsersSegment + [Slash] + id;
    var m := l + tail;
    assert |tail| == |id| + 7;
    assert m[|l|..] == tail;
  }

  /**
   * Whatever precedes the collection segment and however many slashes surround
   * the path, `/<prefix>/users/<id>/` yields `id`: `//users/7/`, `/a/users/7/`
   * and `/a//users/7/` all yield `7`.
   */
  lemma PrefixedPathYieldsId(prefix: string, id: string)
    requires id != [] && Slash !in id
    ensures ExtractUserId([Slash] + prefix + [Slash] + UsersSegment + [Slash] + id + [Slash]) == Some(id)
  {
    var path := [Slash] + prefix + [Slash] + UsersSegment + [Slash] + id + [Slash];
    var m := UsersSegment + [Slash] + id;
    assert path == ([Slash] + prefix) + ([Slash] + m + [Slash]);
    assert m != [] && m[0] != Slash && m[|m| - 1] != Slash by {
      UsersSegmentShape();
      assert m[0] == UsersSegment[0] && m[|m| - 1] == id[|id| - 1];
    }
    assert NamesUser(Strip(path), id) by {
      if StripLeading([Slash] + prefix) == [] {
        StripSlashPrefixedPath(prefix, m);
      } else {
        StripNamedPrefixedPath(prefix, m);
        Regroup([Slash], UsersSegment, [Slash], id);
        EndsInUserNamesUser(StripLeading([Slash] + prefix), id);
      }
    }
    UserIdCharacterisation(path, id);
  }

  /** The collection path, with or without its trailing slash, and the empty path carry no identifier. */
  lemma CollectionPathHasNoId()
    ensures ExtractUserId([Slash] + UsersSegment + [Slash]) == None
    ensures ExtractUserId([Slash] + UsersSegment) == None
    ensures ExtractUserId([]) == None
  {
    UsersSegmentShape();
    var u := UsersSegment;
    assert u[0] != Slash && u[|u| - 1] != Slash;
    StripAddedSlashes(u);
    SplitOfOne(u);
    assert Strip([Slash] + u + [Slash]) == u && Strip([Slash] + u) == u;
    assert Segments([Slash] + u + [Slash]) == [u];
    assert Segments([Slash] + u) == [u];
    ExtractFromSegments([Slash] + u + [Slash], [u]);
    ExtractFromSegments([Slash] + u, [u]);
    assert Strip([]) == [];
    SplitOfOne([]);
    assert Segments([]) == [[]];
    ExtractFromSegments([], [[]]);
  }

  /** A slash-free string is its own one segment. */
  lemma SplitOfOne(a: string)
    requires Slash !in a
    ensures Text.Split(a, [Slash]) == [a]
  {
    var pieces := [a];
    assert Text.Join(pieces, [Slash]) == a;
    assert pieces[0] == a;
    SplitOfSlashJoin(pieces, a);
  }

  /** Two slash-free pieces joined by a slash split back into those pieces. */
  lemma SplitOfTwo(a: string, b: string)
    requires Slash !in a && Slash !in b
    ensures Text.Split(a + [Slash] + b, [Slash]) == [a, b]
  {
    var pieces := [a, b];
    var last := [b];
    assert Text.Join(last, [Slash]) == b;
    assert pieces[1..] == last;
    assert Text.Join(pieces, [Slash]) == a + [Slash] + b;
    forall i | 0 <= i < |pieces| ensures Slash !in pieces[i] {
      if i == 0 {
        assert pieces[i] == a;
      } else {
        assert pieces[i] == b;
      }
    }
    SplitOfSlashJoin(pieces, a + [Slash] + b);
  }

  /** Three slash-free pieces joined by slashes split back into those pieces. */
  lemma SplitOfThree(a: string, b: string, c: string)
    requires Slash !in a && Slash !in b && Slash !in c
    ensures Text.Split(a + [Slash] + b + [Slash] + c, [Slash]) == [a, b, c]
  {
    var pieces := [a, b, c];
    var last := [c];
    var tail := [b, c];
    assert Text.Join(last, [Slash]) == c;
    assert tail[1..] == last;
    assert Text.Join(tail, [Slash]) == b + [Slash] + c;
    assert pieces[1..] == tail;
    assert Text.Join(pieces, [Slash]) == a + [Slash] + Text.Join(tail, [Slash]);
    assert a + [Slash] + (b + [Slash] + c) == a + [Slash] + b + [Slash] + c;
    forall i | 0 <= i < |pieces| ensures Slash !in pieces[i] {
      if i == 0 {
        assert pieces[i] == a;
      } else if i == 1 {
        assert pieces[i] == b;
      } else {
        assert pieces[i] == c;
      }
    }
    SplitOfSlashJoin(pieces, a + [Slash] + b + [Slash] + c);
  }

  /** A double slash leaves an empty segment before the last one: `/users//<id>` carries no identifier. */
  lemma DoubleSlashHasNoId(id: string)
    requires id != [] && Slash !in id
    ensures ExtractUserId([Slash] + UsersSegment + [Slash, Slash] + id) == None
  {
    var path := [Slash] + UsersSegment + [Slash, Slash] + id;
    UsersSegmentShape();
    var t := UsersSegment + [Slash] + [] + [Slash] + id;
    assert path == [Slash] + t;
    assert t[0] == UsersSegment[0] && t[|t| - 1] == id[|id| - 1];
    StripAddedSlashes(t);
    assert Strip(path) == t;
    var pieces := [UsersSegment, [], id];
    SplitOfThree(UsersSegment, [], id);
    assert Segments(path) == pieces;
    ExtractFromSegments(path, pieces);
  }
}
