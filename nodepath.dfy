/**
 * The parts of Node's POSIX `path` module the gallery uses — `join`,
 * `dirname`, `basename`, `extname`, `relative` — and the meaning of the
 * cache-clearing glob (`**` and `*`), all over path strings.
 *
 * Paths are compared through their segments: the non-empty pieces between
 * `/`, without `.` pieces, together with whether the path is absolute.
 */
module NodePath {
  import opened Wrappers
  import opened JsString

  /** A piece of a path that names something: neither empty nor `.`. */
  predicate Named(piece: string) {
    piece != "" && piece != "."
  }

  /** The pieces that name something, in order. */
  function Meaningful(pieces: seq<string>): seq<string>
    decreases |pieces|
  {
    if pieces == [] then []
    else (if Named(pieces[0]) then [pieces[0]] else []) + Meaningful(pieces[1..])
  }

  /** The segments of a path. */
  function Segments(p: string): seq<string> {
    Meaningful(Split(p, '/'))
  }

  predicate IsAbsolute(p: string) {
    p != [] && p[0] == '/'
  }

  /** A sequence of segments as `Segments` produces them. */
  predicate Plain(segs: seq<string>)
    decreases |segs|
  {
    segs == [] || (Named(segs[0]) && '/' !in segs[0] && Plain(segs[1..]))
  }

  lemma {:induction false} MeaningfulAppend(a: seq<string>, b: seq<string>)
    ensures Meaningful(a + b) == Meaningful(a) + Meaningful(b)
    decreases |a|
  {
    if a != [] {
      assert (a + b)[1..] == a[1..] + b;
      MeaningfulAppend(a[1..], b);
    } else {
      assert a + b == b;
    }
  }

  lemma {:induction false} MeaningfulOfPlain(segs: seq<string>)
    requires Plain(segs)
    ensures Meaningful(segs) == segs
    decreases |segs|
  {
    if segs != [] {
      MeaningfulOfPlain(segs[1..]);
      assert [segs[0]] + segs[1..] == segs;
    }
  }

  lemma {:induction false} PlainHasNoSlash(segs: seq<string>)
    requires Plain(segs)
    ensures forall i :: 0 <= i < |segs| ==> '/' !in segs[i]
    decreases |segs|
  {
    if segs != [] {
      PlainHasNoSlash(segs[1..]);
      assert forall i :: 1 <= i < |segs| ==> segs[i] == segs[1..][i - 1];
    }
  }

  lemma {:induction false} MeaningfulIsPlain(pieces: seq<string>)
    requires forall i :: 0 <= i < |pieces| ==> '/' !in pieces[i]
    ensures Plain(Meaningful(pieces))
    decreases |pieces|
  {
    if pieces != [] {
      MeaningfulIsPlain(pieces[1..]);
      var rest := Meaningful(pieces[1..]);
      if Named(pieces[0]) {
        assert ([pieces[0]] + rest)[1..] == rest;
      } else {
        assert [] + rest == rest;
      }
    }
  }

  /** The segments of any path are plain. */
  lemma {:induction false} SegmentsArePlain(p: string)
    ensures Plain(Segments(p))
  {
    MeaningfulIsPlain(Split(p, '/'));
  }

  /** The segments of `a + "/" + b` are those of `a` followed by those of `b`. */
  lemma {:induction false} SegmentsAround(a: string, b: string)
    ensures Segments(a + "/" + b) == Segments(a) + Segments(b)
  {
    assert a + "/" + b == a + ['/'] + b;
    SplitAround(a, b, '/');
    MeaningfulAppend(Split(a, '/'), Split(b, '/'));
  }

  /** A single segment has itself as its only segment. */
  lemma {:induction false} SegmentsOfPiece(s: string)
    requires Named(s) && '/' !in s
    ensures Segments(s) == [s]
  {
    SplitNoSeparator(s, '/');
    assert [s][1..] == [];
    assert Meaningful([s]) == [s] + Meaningful([]);
  }

  /** The empty path has no segments. */
  lemma {:induction false} SegmentsOfEmpty()
    ensures Segments("") == []
  {
    assert Split("", '/') == [""];
    assert [""][1..] == [];
  }

  /** Joining plain segments with `/` gives a path with exactly those segments. */
  lemma {:induction false} SegmentsOfJoinWith(segs: seq<string>)
    requires Plain(segs)
    ensures Segments(JoinWith(segs, '/')) == segs
  {
    if segs != [] {
      PlainHasNoSlash(segs);
      SplitJoin(segs, '/');
      MeaningfulOfPlain(segs);
    }
  }

  /** Node's `path.normalize`, without resolving `..` and without keeping a trailing `/`. */
  function Normalize(p: string): string {
    if p == "" then "."
    else
      var body := JoinWith(Segments(p), '/');
      if IsAbsolute(p) then "/" + body else if body == "" then "." else body
  }

  lemma {:induction false} NormalizeKeepsMeaning(p: string)
    ensures Segments(Normalize(p)) == Segments(p)
    ensures IsAbsolute(Normalize(p)) == IsAbsolute(p)
  {
    assert Segments(".") == [] by {
      SplitNoSeparator(".", '/');
      assert ["."][1..] == [];
    }
    if p != "" {
      var segs := Segments(p);
      var body := JoinWith(segs, '/');
      assert Segments(body) == segs && !IsAbsolute(body) by {
        SegmentsArePlain(p);
        SegmentsOfJoinWith(segs);
        PlainJoinIsRelative(segs);
      }
      if IsAbsolute(p) {
        assert Segments("/" + body) == segs by {
          SegmentsOfEmpty();
          SegmentsAround("", body);
          assert "" + "/" + body == "/" + body;
        }
      }
    } else {
      SegmentsOfEmpty();
    }
  }

  /** Plain segments joined with `/` never start with `/`. */
  lemma {:induction false} PlainJoinIsRelative(segs: seq<string>)
    requires Plain(segs)
    ensures !IsAbsolute(JoinWith(segs, '/'))
  {
    if |segs| > 1 {
      assert JoinWith(segs, '/') == segs[0] + ['/'] + JoinWith(segs[1..], '/');
      assert JoinWith(segs, '/')[0] == segs[0][0];
    }
  }

  /** What is left of plain segments after the first `k` is plain. */
  lemma {:induction false} PlainSuffix(segs: seq<string>, k: nat)
    requires Plain(segs) && k <= |segs|
    ensures Plain(segs[k..])
    decreases k
  {
    if k > 0 {
      PlainSuffix(segs[1..], k - 1);
      assert segs[1..][k - 1..] == segs[k..];
    }
  }

  /** The arguments of `path.join` that are not empty strings. */
  function NonEmpty(parts: seq<string>): seq<string>
    decreases |parts|
  {
    if parts == [] then [] else (if parts[0] == "" then [] else [parts[0]]) + NonEmpty(parts[1..])
  }

  /** `path.join(...parts)`: the non-empty arguments joined with `/`, then normalized. */
  function Join(parts: seq<string>): (r: string)
    ensures r != ""
  {
    Normalize(JoinWith(NonEmpty(parts), '/'))
  }

  /** The segments of every argument, in order. */
  function AllSegments(parts: seq<string>): seq<string>
    decreases |parts|
  {
    if parts == [] then [] else Segments(parts[0]) + AllSegments(parts[1..])
  }

  lemma {:induction false} SegmentsOfJoined(parts: seq<string>)
    ensures Segments(JoinWith(NonEmpty(parts), '/')) == AllSegments(parts)
    decreases |parts|
  {
    SegmentsOfEmpty();
    if parts == [] {
    } else {
      SegmentsOfJoined(parts[1..]);
      var rest := NonEmpty(parts[1..]);
      if parts[0] == "" {
        assert NonEmpty(parts) == rest;
      } else if rest == [] {
        assert NonEmpty(parts) == [parts[0]];
        assert AllSegments(parts) == Segments(parts[0]) + [];
      } else {
        assert NonEmpty(parts) == [parts[0]] + rest;
        assert JoinWith(NonEmpty(parts), '/') == parts[0] + "/" + JoinWith(rest, '/');
        SegmentsAround(parts[0], JoinWith(rest, '/'));
      }
    }
  }

  /** `path.join` keeps every segment of its arguments, in order, and nothing else. */
  lemma {:induction false} JoinSegments(parts: seq<string>)
    ensures Segments(Join(parts)) == AllSegments(parts)
  {
    SegmentsOfJoined(parts);
    NormalizeKeepsMeaning(JoinWith(NonEmpty(parts), '/'));
  }

  /**
   * A join is absolute exactly when its first non-empty argument is; with no
   * non-empty argument it is `.`.
   */
  lemma {:induction false} JoinAbsolute(parts: seq<string>)
    ensures NonEmpty(parts) == [] ==> Join(parts) == "."
    ensures NonEmpty(parts) != [] ==> IsAbsolute(Join(parts)) == IsAbsolute(NonEmpty(parts)[0])
    ensures parts != [] && parts[0] != "" ==> IsAbsolute(Join(parts)) == IsAbsolute(parts[0])
  {
    var q := NonEmpty(parts);
    if parts != [] && parts[0] != "" {
      assert q == [parts[0]] + NonEmpty(parts[1..]);
    }
    if q != [] {
      NonEmptyHead(parts);
      var joined := JoinWith(q, '/');
      assert joined[0] == q[0][0];
      NormalizeKeepsMeaning(joined);
    }
  }

  /** The first argument `NonEmpty` keeps is not empty. */
  lemma {:induction false} NonEmptyHead(parts: seq<string>)
    ensures NonEmpty(parts) != [] ==> NonEmpty(parts)[0] != ""
    decreases |parts|
  {
    if parts != [] && parts[0] == "" {
      assert NonEmpty(parts) == NonEmpty(parts[1..]);
      NonEmptyHead(parts[1..]);
    }
  }

  /** How far `path.dirname` scans back: Node's loop from index `i` down to 1. */
  function SeparatorBeforeName(p: string, i: int, matchedSlash: bool): (end: int)
    requires i < |p|
    ensures end == -1 || 1 <= end <= i
    decreases i
  {
    if i < 1 then -1
    else if p[i] == '/' then (if !matchedSlash then i else SeparatorBeforeName(p, i - 1, true))
    else SeparatorBeforeName(p, i - 1, false)
  }

  /** `path.dirname(p)`. */
  function DirName(p: string): (r: string)
    ensures r != "" && IsAbsolute(r) == IsAbsolute(p)
  {
    if p == "" then "."
    else
      var hasRoot := p[0] == '/';
      var end := SeparatorBeforeName(p, |p| - 1, true);
      if end == -1 then (if hasRoot then "/" else ".")
      else if hasRoot && end == 1 then "//"
      else p[..end]
  }

  lemma {:induction false} ScanOverName(p: string, i: int, lo: int, matchedSlash: bool)
    requires 1 <= lo < i < |p| && p[lo] == '/'
    requires forall j :: lo < j <= i ==> p[j] != '/'
    ensures SeparatorBeforeName(p, i, matchedSlash) == lo
    decreases i
  {
    if i - 1 > lo {
      ScanOverName(p, i - 1, lo, false);
    }
  }

  lemma {:induction false} ScanToStart(p: string, i: int, matchedSlash: bool)
    requires i < |p|
    requires forall j :: 1 <= j <= i ==> p[j] != '/'
    ensures SeparatorBeforeName(p, i, matchedSlash) == -1
    decreases i
  {
    if i >= 1 {
      ScanToStart(p, i - 1, false);
    }
  }

  /** The directory of `d/n` is `d`, for a name `n` and a directory not ending in `/`. */
  lemma {:induction false} DirNameOfChild(d: string, n: string)
    requires d != "" && d[|d| - 1] != '/'
    requires n != "" && '/' !in n
    ensures DirName(d + "/" + n) == d
  {
    var p := d + "/" + n;
    assert p[|d|] == '/';
    assert forall j :: |d| < j < |p| ==> p[j] == n[j - |d| - 1];
    ScanOverName(p, |p| - 1, |d|, true);
    assert p[..|d|] == d;
  }

  /** The directory of `/n` is the root. */
  lemma {:induction false} DirNameOfTopLevel(n: string)
    requires n != "" && '/' !in n
    ensures DirName("/" + n) == "/"
  {
    var p := "/" + n;
    assert forall j :: 1 <= j < |p| ==> p[j] == n[j - 1];
    ScanToStart(p, |p| - 1, true);
  }

  /** The last non-empty piece, or "" when there is none. */
  function LastNonEmpty(pieces: seq<string>): string
    decreases |pieces|
  {
    if pieces == [] then ""
    else if pieces[|pieces| - 1] != "" then pieces[|pieces| - 1]
    else LastNonEmpty(pieces[..|pieces| - 1])
  }

  /** `path.basename(p)`: the last name, trailing slashes ignored. */
  function BaseName(p: string): (r: string)
    ensures '/' !in r
  {
    var pieces := Split(p, '/');
    var r := LastNonEmpty(pieces);
    assert r == "" || r in pieces by {
      LastNonEmptyIsPiece(pieces);
    }
    r
  }

  lemma {:induction false} LastNonEmptyIsPiece(pieces: seq<string>)
    ensures LastNonEmpty(pieces) == "" || LastNonEmpty(pieces) in pieces
    decreases |pieces|
  {
    if pieces != [] && pieces[|pieces| - 1] == "" {
      LastNonEmptyIsPiece(pieces[..|pieces| - 1]);
    }
  }

  /** `path.extname(p)`: from the last `.` of the base name, unless that `.` starts it. */
  function ExtName(p: string): (e: string)
    ensures EndsWith(BaseName(p), e)
  {
    var b := BaseName(p);
    if b == ".." then ""
    else
      match LastIndexOf(b, '.')
      case None => ""
      case Some(k) => if k == 0 then "" else b[k..]
  }

  /** `path.basename(p, path.extname(p))`: the base name without its extension. */
  function Stem(p: string): (s: string)
    ensures s + ExtName(p) == BaseName(p)
  {
    var b := BaseName(p);
    var e := ExtName(p);
    assert b == b[..|b| - |e|] + b[|b| - |e|..];
    b[..|b| - |e|]
  }

  /** The base name of `d/n` is `n`. */
  lemma {:induction false} BaseNameOfChild(d: string, n: string)
    requires n != "" && '/' !in n
    ensures BaseName(d + "/" + n) == n
  {
    assert d + "/" + n == d + ['/'] + n;
    SplitAround(d, n, '/');
    SplitNoSeparator(n, '/');
  }

  /**
   * For a name with an extension (a `.` after its first character), Node's
   * base name without extension is the text before the last `.`, which is
   * what dropping the last `.`-piece gives.
   */
  lemma {:induction false} StemOfChild(d: string, n: string)
    requires n != "" && '/' !in n && n != ".."
    requires LastIndexOf(n, '.').Some? && LastIndexOf(n, '.').value > 0
    ensures Stem(d + "/" + n) == StripLastExt(n)
  {
    BaseNameOfChild(d, n);
    StripLastExtIsPrefix(n);
  }

  /** The length of the longest common prefix of two segment sequences. */
  function CommonPrefixLength(a: seq<string>, b: seq<string>): (k: nat)
    ensures k <= |a| && k <= |b| && a[..k] == b[..k]
    decreases |a|
  {
    if a != [] && b != [] && a[0] == b[0] then
      var k := 1 + CommonPrefixLength(a[1..], b[1..]);
      assert a[..k] == [a[0]] + a[1..][..k - 1];
      assert b[..k] == [b[0]] + b[1..][..k - 1];
      k
    else 0
  }

  function Ups(n: nat): seq<string> {
    if n == 0 then [] else [".."] + Ups(n - 1)
  }

  lemma {:induction false} PlainUps(n: nat, rest: seq<string>)
    requires Plain(rest)
    ensures Plain(Ups(n) + rest)
    decreases n
  {
    if n > 0 {
      PlainUps(n - 1, rest);
      assert (Ups(n) + rest)[1..] == Ups(n - 1) + rest;
    } else {
      assert Ups(n) + rest == rest;
    }
  }

  /**
   * `path.relative(from, to)`: up out of what `from` does not share with `to`,
   * then down into the rest of `to`.
   */
  function Relative(from: string, to: string): (r: string)
    ensures !IsAbsolute(r)
  {
    var f := Segments(from);
    var t := Segments(to);
    var k := CommonPrefixLength(f, t);
    assert !IsAbsolute(JoinWith(Ups(|f| - k) + t[k..], '/')) by {
      assert Plain(t[k..]) by {
        SegmentsArePlain(to);
        PlainSuffix(t, k);
      }
      PlainUps(|f| - k, t[k..]);
      PlainJoinIsRelative(Ups(|f| - k) + t[k..]);
    }
    JoinWith(Ups(|f| - k) + t[k..], '/')
  }

  lemma {:induction false} CommonPrefixOfExtension(a: seq<string>, rest: seq<string>)
    ensures CommonPrefixLength(a, a + rest) == |a|
    decreases |a|
  {
    if a != [] {
      assert (a + rest)[1..] == a[1..] + rest;
      CommonPrefixOfExtension(a[1..], rest);
    }
  }

  /** A path below `root` is reached from it by its remaining segments. */
  lemma {:induction false} RelativeBelow(root: string, p: string, rest: seq<string>)
    requires Segments(p) == Segments(root) + rest
    ensures Relative(root, p) == JoinWith(rest, '/')
  {
    CommonPrefixOfExtension(Segments(root), rest);
    assert (Segments(root) + rest)[|Segments(root)|..] == rest;
    assert Ups(0) + rest == rest;
  }

  /**
   * The characters fast-glob reads as syntax besides `*`: brackets, groups,
   * braces, negation, `?`, extglob markers and the escape character.
   */
  const GlobSyntax: string := "[](){}!?+@\\"

  /** Text fast-glob reads literally apart from `*`, as `WildMatch` does. */
  predicate GlobFree(s: string) {
    forall i :: 0 <= i < |s| ==> s[i] !in GlobSyntax
  }

  lemma {:induction false} GlobFreeConcat(a: string, b: string)
    requires GlobFree(a) && GlobFree(b)
    ensures GlobFree(a + b)
  {
    forall i | 0 <= i < |a + b|
      ensures (a + b)[i] !in GlobSyntax
    {
      if i >= |a| {
        assert (a + b)[i] == b[i - |a|];
      }
    }
  }

  /** A glob segment against a name: `*` stands for any run of characters. */
  function WildMatch(pat: string, name: string): bool
    decreases |pat| + |name|
  {
    if pat == [] then name == []
    else if pat[0] == '*' then WildMatch(pat[1..], name) || (name != [] && WildMatch(pat, name[1..]))
    else name != [] && pat[0] == name[0] && WildMatch(pat[1..], name[1..])
  }

  /** Glob segments against path segments: `**` stands for any number of segments. */
  function SegmentsMatch(ps: seq<string>, xs: seq<string>): bool
    decreases |ps| + |xs|
  {
    if ps == [] then xs == []
    else if ps[0] == "**" then SegmentsMatch(ps[1..], xs) || (xs != [] && SegmentsMatch(ps, xs[1..]))
    else xs != [] && WildMatch(ps[0], xs[0]) && SegmentsMatch(ps[1..], xs[1..])
  }

  /** Whether the glob `pattern` matches the path `p`. */
  predicate GlobMatch(pattern: string, p: string) {
    IsAbsolute(pattern) == IsAbsolute(p) && SegmentsMatch(Segments(pattern), Segments(p))
  }

  /** A glob with no `*` matches exactly the paths with its segments and its absoluteness. */
  lemma {:induction false} GlobMatchLiteral(pattern: string, p: string)
    requires Literal(Segments(pattern))
    ensures GlobMatch(pattern, p) <==> IsAbsolute(pattern) == IsAbsolute(p) && Segments(pattern) == Segments(p)
  {
    SegmentsMatchLiteral(Segments(pattern), Segments(p));
  }

  /** Glob segments with no `*` anywhere. */
  predicate Literal(ps: seq<string>) {
    forall i :: 0 <= i < |ps| ==> '*' !in ps[i]
  }

  /** Glob segments without `*` match exactly the same segments. */
  lemma {:induction false} SegmentsMatchLiteral(ps: seq<string>, xs: seq<string>)
    requires Literal(ps)
    ensures SegmentsMatch(ps, xs) <==> ps == xs
    decreases |ps|
  {
    if ps != [] {
      assert ps[0] != "**" by {
        assert "**"[0] == '*';
      }
      if xs != [] {
        assert Literal(ps[1..]) by {
          assert forall i :: 0 <= i < |ps[1..]| ==> ps[1..][i] == ps[i + 1];
        }
        SegmentsMatchLiteral(ps[1..], xs[1..]);
        WildMatchLiteral(ps[0], xs[0]);
        if ps[0] == xs[0] && ps[1..] == xs[1..] {
          assert ps == [ps[0]] + ps[1..];
          assert xs == [xs[0]] + xs[1..];
        }
      }
    }
  }

  /** Every name matches itself as a pattern. */
  lemma {:induction false} WildMatchSelf(x: string)
    ensures WildMatch(x, x)
    decreases |x|
  {
    if x != [] {
      WildMatchSelf(x[1..]);
      if x[0] == '*' {
        assert WildMatch(x[1..], x[1..]);
        assert WildMatch(x, x[1..]) by {
          assert x[1..] != [] ==> WildMatch(x[1..], x[1..]);
        }
      }
    }
  }

  /** A pattern without `*` matches only itself. */
  lemma {:induction false} WildMatchLiteral(pat: string, name: string)
    requires '*' !in pat
    ensures WildMatch(pat, name) <==> pat == name
    decreases |pat| + |name|
  {
    if pat != [] && name != [] {
      WildMatchLiteral(pat[1..], name[1..]);
      if pat[0] == name[0] && pat[1..] == name[1..] {
        assert pat == [pat[0]] + pat[1..];
        assert name == [name[0]] + name[1..];
      }
    }
  }

  /** `s.*` matches `s.ext` for every `s`. */
  lemma {:induction false} WildMatchAnyExtension(s: string, ext: string)
    ensures WildMatch(s + ".*", s + "." + ext)
    decreases |s|
  {
    if s == [] {
      assert s + ".*" == ".*";
      assert s + "." + ext == "." + ext;
      assert (".*")[1..] == "*";
      assert ("." + ext)[1..] == ext;
      StarMatchesAll(ext);
    } else {
      assert (s + ".*")[1..] == s[1..] + ".*";
      assert (s + "." + ext)[1..] == s[1..] + "." + ext;
      WildMatchAnyExtension(s[1..], ext);
      if s[0] == '*' {
        // The star takes exactly itself, and the rest matches as before.
        var pat := s + ".*";
        var name := s + "." + ext;
        assert WildMatch(pat[1..], name[1..]);
        assert WildMatch(pat, name[1..]) by {
          StarThenSame(pat[1..], name[1..]);
        }
      }
    }
  }

  lemma {:induction false} StarThenSame(pat: string, name: string)
    requires WildMatch(pat, name)
    ensures WildMatch("*" + pat, name)
  {
    assert ("*" + pat)[1..] == pat;
  }

  lemma {:induction false} StarMatchesAll(x: string)
    ensures WildMatch("*", x)
    decreases |x|
  {
    if x != [] {
      StarMatchesAll(x[1..]);
    }
  }

  /** Equal literal leading segments cancel. */
  lemma {:induction false} SegmentsMatchCommonPrefix(l: seq<string>, ps: seq<string>, xs: seq<string>)
    requires "**" !in l
    ensures SegmentsMatch(l + ps, l + xs) == SegmentsMatch(ps, xs)
    decreases |l|
  {
    if l != [] {
      assert (l + ps)[0] == l[0] && (l + xs)[0] == l[0];
      assert (l + ps)[1..] == l[1..] + ps;
      assert (l + xs)[1..] == l[1..] + xs;
      WildMatchSelf(l[0]);
      SegmentsMatchCommonPrefix(l[1..], ps, xs);
    } else {
      assert l + ps == ps && l + xs == xs;
    }
  }

  /** `**` may take any run of leading segments. */
  lemma {:induction false} GlobStarSkips(rest: seq<string>, skipped: seq<string>, xs: seq<string>)
    requires SegmentsMatch(rest, xs)
    ensures SegmentsMatch(["**"] + rest, skipped + xs)
    decreases |skipped|
  {
    var ps := ["**"] + rest;
    assert ps[1..] == rest;
    if skipped != [] {
      GlobStarSkips(rest, skipped[1..], xs);
      assert (skipped + xs)[1..] == skipped[1..] + xs;
    } else {
      assert skipped + xs == xs;
    }
  }

  // ---------------------------------------------------------------------
  // Characters a join cannot introduce

  /** No string of `ps` contains `c`. */
  predicate Avoids(ps: seq<string>, c: char) {
    forall i :: 0 <= i < |ps| ==> c !in ps[i]
  }

  lemma {:induction false} SplitAvoids(s: string, sep: char, c: char)
    requires c !in s
    ensures Avoids(Split(s, sep), c)
    decreases |s|
  {
    if s != [] {
      assert forall x :: x in s[1..] ==> x in s;
      SplitAvoids(s[1..], sep, c);
      var rest := Split(s[1..], sep);
      if s[0] != sep {
        assert c !in [s[0]] + rest[0];
        assert forall i :: 1 <= i < |rest| ==> ([[s[0]] + rest[0]] + rest[1..])[i] == rest[i];
      } else {
        assert forall i :: 1 <= i < |rest| + 1 ==> ([""] + rest)[i] == rest[i - 1];
      }
    }
  }

  lemma {:induction false} MeaningfulAvoids(ps: seq<string>, c: char)
    requires Avoids(ps, c)
    ensures Avoids(Meaningful(ps), c)
    decreases |ps|
  {
    if ps != [] {
      assert Avoids(ps[1..], c) by {
        assert forall i :: 0 <= i < |ps| - 1 ==> ps[1..][i] == ps[i + 1];
      }
      MeaningfulAvoids(ps[1..], c);
      var rest := Meaningful(ps[1..]);
      if Named(ps[0]) {
        assert forall i :: 1 <= i < |rest| + 1 ==> ([ps[0]] + rest)[i] == rest[i - 1];
      } else {
        assert [] + rest == rest;
      }
    }
  }

  lemma {:induction false} JoinWithAvoids(parts: seq<string>, sep: char, c: char)
    requires c != sep && Avoids(parts, c)
    ensures c !in JoinWith(parts, sep)
    decreases |parts|
  {
    if |parts| > 1 {
      assert Avoids(parts[1..], c) by {
        assert forall i :: 0 <= i < |parts| - 1 ==> parts[1..][i] == parts[i + 1];
      }
      JoinWithAvoids(parts[1..], sep, c);
      assert c !in parts[0];
    }
  }

  /** The segments of a path contain no character the path does not. */
  lemma {:induction false} SegmentsAvoid(p: string, c: char)
    requires c !in p
    ensures Avoids(Segments(p), c)
  {
    SplitAvoids(p, '/', c);
    MeaningfulAvoids(Split(p, '/'), c);
  }

  lemma {:induction false} NonEmptyAvoids(parts: seq<string>, c: char)
    requires Avoids(parts, c)
    ensures Avoids(NonEmpty(parts), c)
    decreases |parts|
  {
    if parts != [] {
      assert Avoids(parts[1..], c) by {
        assert forall i :: 0 <= i < |parts| - 1 ==> parts[1..][i] == parts[i + 1];
      }
      NonEmptyAvoids(parts[1..], c);
      var rest := NonEmpty(parts[1..]);
      if parts[0] != "" {
        assert forall i :: 1 <= i < |rest| + 1 ==> ([parts[0]] + rest)[i] == rest[i - 1];
      } else {
        assert [] + rest == rest;
      }
    }
  }

  /** `path.join` introduces no character other than `/` and `.`. */
  lemma {:induction false} JoinAvoids(parts: seq<string>, c: char)
    requires c != '/' && c != '.' && Avoids(parts, c)
    ensures c !in Join(parts)
  {
    NonEmptyAvoids(parts, c);
    var joined := JoinWith(NonEmpty(parts), '/');
    JoinWithAvoids(NonEmpty(parts), '/', c);
    if joined != "" {
      SegmentsAvoid(joined, c);
      JoinWithAvoids(Segments(joined), '/', c);
    }
  }
}

