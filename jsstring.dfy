/**
 * The JavaScript String operations the gallery relies on, for a one-character
 * separator: `split`, `join`, `startsWith`, `endsWith`, `includes`, and the
 * idiom `s.split(".").slice(0, -1).join(".")` that drops a last extension.
 */
module JsString {
  import opened Wrappers

  /** `s.split(sep)`: the pieces between occurrences of `sep`, never empty. */
  function Split(s: string, sep: char): (r: seq<string>)
    ensures |r| >= 1
    ensures forall i :: 0 <= i < |r| ==> sep !in r[i]
    decreases |s|
  {
    if s == [] then [""]
    else
      var rest := Split(s[1..], sep);
      if s[0] == sep then [""] + rest
      else [[s[0]] + rest[0]] + rest[1..]
  }

  /** `parts.join(sep)`. */
  function JoinWith(parts: seq<string>, sep: char): string
    decreases |parts|
  {
    if |parts| == 0 then ""
    else if |parts| == 1 then parts[0]
    else parts[0] + [sep] + JoinWith(parts[1..], sep)
  }

  /** The last element, as `pop()` returns it. */
  function Last(parts: seq<string>): string
    requires |parts| >= 1
  {
    parts[|parts| - 1]
  }

  /** `slice(0, -1)`: everything but the last element. */
  function DropLast(parts: seq<string>): seq<string>
    requires |parts| >= 1
  {
    parts[..|parts| - 1]
  }

  predicate StartsWith(s: string, p: string) {
    |p| <= |s| && s[..|p|] == p
  }

  predicate EndsWith(s: string, p: string) {
    |p| <= |s| && s[|s| - |p|..] == p
  }

  /** `s.includes(t)`. */
  predicate Contains(s: string, t: string)
    decreases |s|
  {
    StartsWith(s, t) || (s != [] && Contains(s[1..], t))
  }

  /** The index of the last occurrence of `c` in `s`, if any. */
  function LastIndexOf(s: string, c: char): (r: Option<nat>)
    ensures r.None? <==> c !in s
    ensures r.Some? ==> r.value < |s| && s[r.value] == c && c !in s[r.value + 1..]
    decreases |s|
  {
    if s == [] then None
    else if s[|s| - 1] == c then Some(|s| - 1)
    else
      var r := LastIndexOf(s[..|s| - 1], c);
      assert s == s[..|s| - 1] + [s[|s| - 1]];
      r
  }

  /** `s.split(".").slice(0, -1).join(".")`: `s` without its last `.` and what follows. */
  function StripLastExt(s: string): string {
    JoinWith(DropLast(Split(s, '.')), '.')
  }

  lemma {:induction false} SplitNoSeparator(s: string, sep: char)
    requires sep !in s
    ensures Split(s, sep) == [s]
    decreases |s|
  {
    if s != [] {
      assert s[0] in s;
      assert forall c :: c in s[1..] ==> c in s;
      SplitNoSeparator(s[1..], sep);
      assert [s[0]] + s[1..] == s;
    }
  }

  /** Splitting distributes over a separator occurrence. */
  lemma {:induction false} SplitAround(a: string, b: string, sep: char)
    ensures Split(a + [sep] + b, sep) == Split(a, sep) + Split(b, sep)
    decreases |a|
  {
    if a == [] {
      assert a + [sep] + b == [sep] + b;
      assert ([sep] + b)[1..] == b;
    } else {
      assert (a + [sep] + b)[1..] == a[1..] + [sep] + b;
      SplitAround(a[1..], b, sep);
    }
  }

  lemma {:induction false} JoinWithCons(c: char, parts: seq<string>, sep: char)
    requires |parts| >= 1
    ensures JoinWith([[c] + parts[0]] + parts[1..], sep) == [c] + JoinWith(parts, sep)
  {
    var q := [[c] + parts[0]] + parts[1..];
    if |parts| > 1 {
      assert q[1..] == parts[1..];
    }
  }

  /** Joining the pieces of a split gives back the string. */
  lemma {:induction false} JoinSplit(s: string, sep: char)
    ensures JoinWith(Split(s, sep), sep) == s
    decreases |s|
  {
    if s != [] {
      JoinSplit(s[1..], sep);
      var rest := Split(s[1..], sep);
      if s[0] == sep {
        assert ([""] + rest)[1..] == rest;
      } else {
        JoinWithCons(s[0], rest, sep);
      }
    }
  }

  /** Splitting a join gives back the pieces when none contains the separator. */
  lemma {:induction false} SplitJoin(parts: seq<string>, sep: char)
    requires |parts| >= 1
    requires forall i :: 0 <= i < |parts| ==> sep !in parts[i]
    ensures Split(JoinWith(parts, sep), sep) == parts
    decreases |parts|
  {
    if |parts| == 1 {
      SplitNoSeparator(parts[0], sep);
    } else {
      SplitJoin(parts[1..], sep);
      SplitNoSeparator(parts[0], sep);
      SplitAround(parts[0], JoinWith(parts[1..], sep), sep);
      assert [parts[0]] + parts[1..] == parts;
    }
  }

  /** Dropping the last extension keeps exactly the text before the last `.`. */
  lemma {:induction false} StripLastExtIsPrefix(s: string)
    ensures LastIndexOf(s, '.').None? ==> StripLastExt(s) == ""
    ensures LastIndexOf(s, '.').Some? ==> StripLastExt(s) == s[..LastIndexOf(s, '.').value]
  {
    match LastIndexOf(s, '.')
    case None =>
      SplitNoSeparator(s, '.');
    case Some(k) =>
      assert s == s[..k] + ['.'] + s[k + 1..];
      SplitAround(s[..k], s[k + 1..], '.');
      SplitNoSeparator(s[k + 1..], '.');
      var pieces := Split(s[..k], '.') + [s[k + 1..]];
      assert DropLast(pieces) == Split(s[..k], '.');
      JoinSplit(s[..k], '.');
  }

  /** Dropping the extension of `p + "." + ext` for a dot-free `ext` gives `p`. */
  lemma {:induction false} StripLastExtOfAppended(p: string, ext: string)
    requires '.' !in ext
    ensures StripLastExt(p + "." + ext) == p
  {
    assert p + "." + ext == p + ['.'] + ext;
    SplitAround(p, ext, '.');
    SplitNoSeparator(ext, '.');
    assert DropLast(Split(p, '.') + [ext]) == Split(p, '.');
    JoinSplit(p, '.');
  }

  /** `s.replace(/x/g, y)` for single characters: every `x` becomes `y`. */
  function ReplaceAll(s: string, x: char, y: char): (r: string)
    ensures |r| == |s|
    ensures x != y ==> x !in r
    decreases |s|
  {
    if s == [] then [] else [if s[0] == x then y else s[0]] + ReplaceAll(s[1..], x, y)
  }

  /** Every string contains itself. */
  lemma {:induction false} ContainsSelf(t: string)
    ensures Contains(t, t)
  {
    assert t[..|t|] == t;
  }

  /** Text added after a string keeps what it contains. */
  lemma {:induction false} ContainsAppendRight(s: string, t: string, u: string)
    requires Contains(s, t)
    ensures Contains(s + u, t)
    decreases |s|
  {
    if StartsWith(s, t) {
      assert (s + u)[..|t|] == s[..|t|];
    } else {
      assert (s + u)[1..] == s[1..] + u;
      ContainsAppendRight(s[1..], t, u);
    }
  }

  /** Text added before a string keeps what it contains. */
  lemma {:induction false} ContainsAppendLeft(u: string, s: string, t: string)
    requires Contains(s, t)
    ensures Contains(u + s, t)
    decreases |u|
  {
    if u == [] {
      assert u + s == s;
    } else {
      assert (u + s)[1..] == u[1..] + s;
      ContainsAppendLeft(u[1..], s, t);
    }
  }

  /** A non-empty string is contained in no shorter one. */
  lemma {:induction false} ContainsNeedsRoom(s: string, t: string)
    requires |s| < |t|
    ensures !Contains(s, t)
    decreases |s|
  {
    if s != [] {
      ContainsNeedsRoom(s[1..], t);
    }
  }

  /** The last `sep`-piece of `a + [sep] + b` is `b` when `b` has no `sep`. */
  lemma {:induction false} LastPiece(a: string, b: string, sep: char)
    requires sep !in b
    ensures Last(Split(a + [sep] + b, sep)) == b
  {
    SplitAround(a, b, sep);
    SplitNoSeparator(b, sep);
  }
}

