/**
 * The gallery's image optimisation hook: which external optimiser a file is
 * handed to, chosen by a case-insensitive extension test, and the command line
 * built for it, after escaping the first `$` of the path.
 */
module Optimiser {
  import opened Wrappers
  import opened JsString

  /** ASCII lower case: the letters the `i` flag folds in these patterns. */
  function Lower(c: char): char {
    if 'A' <= c <= 'Z' then (c as int + 32) as char else c
  }

  function LowerAll(s: string): (r: string)
    ensures |r| == |s|
    decreases |s|
  {
    if s == [] then [] else [Lower(s[0])] + LowerAll(s[1..])
  }

  /** `/<suffix>$/i.test(s)` for a lower-case suffix without pattern syntax. */
  predicate EndsWithIgnoringCase(s: string, suffix: string) {
    |suffix| <= |s| && LowerAll(s[|s| - |suffix|..]) == suffix
  }

  /** `s.replace("$", "\\$")`: a string pattern, so only the first `$` gains a backslash. */
  function EscapeFirstDollar(s: string): (r: string)
    ensures |r| == if '$' in s then |s| + 1 else |s|
    ensures r == [] || r[0] != '$'
    decreases |s|
  {
    if s == [] then []
    else if s[0] == '$' then "\\$" + s[1..]
    else
      assert '$' in s <==> '$' in s[1..] by {
        assert s == [s[0]] + s[1..];
      }
      [s[0]] + EscapeFirstDollar(s[1..])
  }

  /** The inverse of the escape: the backslash just before the first `$` is dropped. */
  function UnescapeFirstDollar(s: string): string
    decreases |s|
  {
    if s == [] || s[0] == '$' then s
    else if |s| >= 2 && s[0] == '\\' && s[1] == '$' then s[1..]
    else [s[0]] + UnescapeFirstDollar(s[1..])
  }

  /** The text of a command between its first `"` and its last character. */
  function QuotedArgument(cmd: string): string
    decreases |cmd|
  {
    if cmd == [] then []
    else if cmd[0] == '"' then (if |cmd| >= 2 then cmd[1..|cmd| - 1] else [])
    else QuotedArgument(cmd[1..])
  }

  /**
   * The command line for `image`: `optipng` for `.png`, `jpegoptim` for `.jpg`
   * and `.jpeg`; `None` when the callback is called without a command.
   */
  function OptimiseCommand(image: string): (r: Option<string>)
    ensures r.Some? ==>
      EndsWithIgnoringCase(image, ".png") || EndsWithIgnoringCase(image, ".jpg") || EndsWithIgnoringCase(image, ".jpeg")
  {
    if EndsWithIgnoringCase(image, ".png") then
      Some("optipng \"" + EscapeFirstDollar(image) + "\"")
    else if EndsWithIgnoringCase(image, ".jpg") || EndsWithIgnoringCase(image, ".jpeg") then
      Some("jpegoptim -m90 -o \"" + EscapeFirstDollar(image) + "\"")
    else None
  }

  // ---------------------------------------------------------------------
  // Escaping

  /** A path without `$` is used as it is. */
  lemma {:induction false} EscapeWithoutDollar(s: string)
    requires '$' !in s
    ensures EscapeFirstDollar(s) == s
    decreases |s|
  {
    if s != [] {
      EscapeWithoutDollar(s[1..]);
      assert [s[0]] + s[1..] == s;
    }
  }

  /** The first `$` gains a backslash; whatever follows it, further `$` included, is kept as it is. */
  lemma {:induction false} EscapeFirstOnly(a: string, b: string)
    requires '$' !in a
    ensures EscapeFirstDollar(a + "$" + b) == a + "\\$" + b
    decreases |a|
  {
    if a == [] {
      assert a + "$" + b == "$" + b;
      assert ("$" + b)[1..] == b;
    } else {
      assert (a + "$" + b)[0] == a[0];
      assert (a + "$" + b)[1..] == a[1..] + "$" + b;
      EscapeFirstOnly(a[1..], b);
      assert [a[0]] + (a[1..] + "\\$" + b) == a + "\\$" + b;
    }
  }

  /** A second `$` is left unescaped. */
  lemma {:induction false} SecondDollarUnescaped(a: string, b: string, c: string)
    requires '$' !in a
    ensures EscapeFirstDollar(a + "$" + b + "$" + c) == a + "\\$" + b + "$" + c
  {
    assert a + "$" + b + "$" + c == a + "$" + (b + "$" + c);
    EscapeFirstOnly(a, b + "$" + c);
  }

  /** Escaping inserts one backslash, just before the first `$`, and nothing else. */
  lemma {:induction false} EscapeInsertsBackslash(s: string)
    ensures '$' !in s ==> EscapeFirstDollar(s) == s
    ensures '$' in s ==> EscapeFirstDollar(s) == s[..FirstDollar(s)] + "\\" + s[FirstDollar(s)..]
  {
    if '$' !in s {
      EscapeWithoutDollar(s);
    } else {
      var k := FirstDollar(s);
      assert s == s[..k] + "$" + s[k + 1..];
      EscapeFirstOnly(s[..k], s[k + 1..]);
      assert s[k..] == "$" + s[k + 1..];
    }
  }

  function FirstDollar(s: string): (k: nat)
    requires '$' in s
    ensures k < |s| && s[k] == '$' && '$' !in s[..k]
    decreases |s|
  {
    if s[0] == '$' then 0
    else
      var k := 1 + FirstDollar(s[1..]);
      assert s[..k] == [s[0]] + s[1..][..k - 1];
      k
  }

  // ---------------------------------------------------------------------
  // Dispatch

  lemma {:induction false} LowerAllAppend(a: string, b: string)
    ensures LowerAll(a + b) == LowerAll(a) + LowerAll(b)
    decreases |a|
  {
    if a == [] {
      assert a + b == b;
    } else {
      assert (a + b)[1..] == a[1..] + b;
      LowerAllAppend(a[1..], b);
    }
  }

  lemma {:induction false} LowerAllSuffix(s: string, n: nat)
    requires n <= |s|
    ensures LowerAll(s[|s| - n..]) == LowerAll(s)[|s| - n..]
  {
    assert s == s[..|s| - n] + s[|s| - n..];
    LowerAllAppend(s[..|s| - n], s[|s| - n..]);
  }

  /** A file whose name ends in `.png`, in any letter case, goes to `optipng`. */
  lemma {:induction false} PngInAnyCase(stem: string, ext: string)
    requires LowerAll(ext) == ".png"
    ensures OptimiseCommand(stem + ext) == Some("optipng \"" + EscapeFirstDollar(stem + ext) + "\"")
  {
    var s := stem + ext;
    assert s[|s| - 4..] == ext;
  }

  /** A file whose name ends in `.jpg` or `.jpeg`, in any letter case, goes to `jpegoptim`. */
  lemma {:induction false} JpegInAnyCase(stem: string, ext: string)
    requires LowerAll(ext) == ".jpg" || LowerAll(ext) == ".jpeg"
    ensures OptimiseCommand(stem + ext) == Some("jpegoptim -m90 -o \"" + EscapeFirstDollar(stem + ext) + "\"")
  {
    var s := stem + ext;
    assert s[|s| - |ext|..] == ext;
    LowerAllSuffix(s, 4);
    LowerAllSuffix(ext, 4);
    assert s[|s| - 4..] == ext[|ext| - 4..];
    if LowerAll(ext) == ".jpeg" {
      assert LowerAll(ext)[1..] == "jpeg";
    }
  }

  /** The lowered last `n + 1` characters, without their first, are the lowered last `n`. */
  lemma {:induction false} LoweredTail(s: string, n: nat)
    requires n + 1 <= |s|
    ensures LowerAll(s[|s| - n - 1..])[1..] == LowerAll(s[|s| - n..])
  {
    assert s[|s| - n - 1..][1..] == s[|s| - n..];
  }

  /** GIF files get no command. */
  lemma {:induction false} GifSkipped(stem: string)
    ensures OptimiseCommand(stem + ".gif") == None
  {
    var g := stem + ".gif";
    var t := ".gif";
    assert LowerAll(g[|g| - 4..]) == t by {
      assert g[|g| - 4..] == t;
      assert LowerAll(t) == t;
    }
    assert !EndsWithIgnoringCase(g, ".png") by {
      assert t[1] != ".png"[1];
    }
    assert !EndsWithIgnoringCase(g, ".jpg") by {
      assert t[1] != ".jpg"[1];
    }
    assert !EndsWithIgnoringCase(g, ".jpeg") by {
      if |g| >= 5 {
        LoweredTail(g, 4);
        assert ".jpeg"[1..] != t by {
          assert ".jpeg"[1..][0] != t[0];
        }
      }
    }
  }

  /** The WebP derivatives the gateway writes get no command either. */
  lemma {:induction false} WebPSkipped(stem: string)
    ensures OptimiseCommand(stem + ".webp") == None
  {
    var w := stem + ".webp";
    assert w[|w| - 5..] == ".webp";
    assert w[|w| - 4..] == "webp";
    assert LowerAll("webp") == "webp";
    LoweredTail(w, 4);
  }

  /** Unescaping an escaped path gives the path back. */
  lemma {:induction false} EscapeRoundTrip(s: string)
    ensures UnescapeFirstDollar(EscapeFirstDollar(s)) == s
    decreases |s|
  {
    if s != [] {
      if s[0] == '$' {
        var e := "\\$" + s[1..];
        assert e[0] == '\\' && e[1] == '$' && e[1..] == s;
      } else {
        var rest := EscapeFirstDollar(s[1..]);
        EscapeRoundTrip(s[1..]);
        var e := [s[0]] + rest;
        assert e[1..] == rest;
        assert UnescapeFirstDollar(e) == [s[0]] + UnescapeFirstDollar(rest);
        assert [s[0]] + s[1..] == s;
      }
    }
  }

  /** The quoted text of `tool "arg"` is `arg` when the tool's name has no quote. */
  lemma {:induction false} QuotedAfterTool(tool: string, arg: string)
    requires '"' !in tool
    ensures QuotedArgument(tool + "\"" + arg + "\"") == arg
    decreases |tool|
  {
    var c := tool + "\"" + arg + "\"";
    if tool == [] {
      assert c == "\"" + arg + "\"";
      assert c[1..|c| - 1] == arg;
    } else {
      assert c[0] == tool[0];
      assert c[1..] == tool[1..] + "\"" + arg + "\"";
      QuotedAfterTool(tool[1..], arg);
    }
  }

  /**
   * Any command hands its optimiser the image path between double quotes:
   * unescaping the quoted text gives the path back; and `optipng` runs exactly
   * for `.png` names.
   */
  lemma {:induction false} CommandQuotesPath(image: string)
    requires OptimiseCommand(image).Some?
    ensures var cmd := OptimiseCommand(image).value;
      UnescapeFirstDollar(QuotedArgument(cmd)) == image
      && (StartsWith(cmd, "optipng ") <==> EndsWithIgnoringCase(image, ".png"))
  {
    var cmd := OptimiseCommand(image).value;
    var arg := EscapeFirstDollar(image);
    var png := "optipng ";
    var jpeg := "jpegoptim -m90 -o ";
    EscapeRoundTrip(image);
    if EndsWithIgnoringCase(image, ".png") {
      assert cmd == png + "\"" + arg + "\"";
      assert '"' !in png;
      QuotedAfterTool(png, arg);
      assert cmd[..|png|] == png;
    } else {
      assert cmd == jpeg + "\"" + arg + "\"";
      assert '"' !in jpeg;
      QuotedAfterTool(jpeg, arg);
      assert cmd[0] != png[0];
    }
  }
}
