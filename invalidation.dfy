/**
 * Which WebP derivatives removing an image reaches. The gateway writes a
 * derivative at `cache/[size/]<base>.webp`, whatever directory the source sat
 * in; `removeImage` clears the glob `cache + dirname + "/**/" + base + ".*"`.
 * Putting the two side by side shows where they agree and where they do not.
 */
module Invalidation {
  import opened Wrappers
  import opened JsString
  import NodePath
  import opened RequestShape
  import opened FileSystem
  import FSUtils

  /** The segments of `**` followed by a plain name. */
  lemma {:induction false} GlobStarThen(piece: string)
    requires NodePath.Named(piece) && '/' !in piece
    ensures NodePath.Segments("**" + "/" + piece) == ["**", piece]
  {
    NodePath.SegmentsAround("**", piece);
    NodePath.SegmentsOfPiece("**");
    NodePath.SegmentsOfPiece(piece);
  }

  /** The segments of the glob for a top-level image: the cache's, then `**`, then the name pattern. */
  lemma {:induction false} TopLevelPatternSegments(cache: string, piece: string, glob: string)
    requires NodePath.Named(piece) && '/' !in piece
    requires glob == cache + "/" + "/**/" + piece
    ensures NodePath.Segments(glob) == NodePath.Segments(cache) + ["**", piece]
    ensures cache != "" ==> NodePath.IsAbsolute(glob) == NodePath.IsAbsolute(cache)
  {
    var tail := "**" + "/" + piece;
    var mid := "" + "/" + tail;
    assert NodePath.Segments(mid) == ["**", piece] by {
      GlobStarThen(piece);
      NodePath.SegmentsAround("", tail);
      NodePath.SegmentsOfEmpty();
    }
    assert cache + "/" + "/**/" + piece == cache + "/" + mid;
    NodePath.SegmentsAround(cache, mid);
    if cache != "" {
      assert glob[0] == cache[0];
    }
  }

  /** The segments of the glob for an image in `/sub`: the cache's, `sub`, `**`, the name pattern. */
  lemma {:induction false} SubdirectoryPatternSegments(cache: string, sub: string, piece: string, glob: string)
    requires NodePath.Named(piece) && '/' !in piece
    requires NodePath.Named(sub) && '/' !in sub
    requires glob == cache + ("/" + sub) + "/**/" + piece
    ensures NodePath.Segments(glob) == NodePath.Segments(cache) + [sub, "**", piece]
    ensures cache != "" ==> NodePath.IsAbsolute(glob) == NodePath.IsAbsolute(cache)
  {
    var tail := "**" + "/" + piece;
    var mid := sub + "/" + tail;
    assert NodePath.Segments(mid) == [sub, "**", piece] by {
      GlobStarThen(piece);
      NodePath.SegmentsAround(sub, tail);
      NodePath.SegmentsOfPiece(sub);
    }
    assert cache + ("/" + sub) + "/**/" + piece == cache + "/" + mid;
    NodePath.SegmentsAround(cache, mid);
    if cache != "" {
      assert glob[0] == cache[0];
    }
  }

  /** `<stem>.*` is a single plain segment. */
  lemma {:induction false} NamePatternIsPiece(stem: string)
    requires '/' !in stem
    ensures NodePath.Named(stem + ".*") && '/' !in stem + ".*" && stem + ".*" != "**"
  {
    var p := stem + ".*";
    assert p[|p| - 2] == '.';
  }

  /** A name with an extension, as the gateway and the glob both read it. */
  predicate HasExtension(name: string) {
    name != "" && '/' !in name && name != ".."
    && LastIndexOf(name, '.').Some? && LastIndexOf(name, '.').value > 0
  }

  /** Dropping the extension keeps a name free of `/`. */
  lemma {:induction false} BaseHasNoSlash(name: string)
    requires '/' !in name
    ensures '/' !in StripLastExt(name)
  {
    StemHasNoSlash(name);
    assert forall c :: c in StripLastExt(name) ==> c in StripLastExt(name) + ".webp";
  }

  /** The name pattern `<base>.*` matches the derivative name `<base>.webp`. */
  lemma {:induction false} DerivativeMatches(base: string)
    ensures NodePath.WildMatch(base + ".*", base + ".webp")
  {
    var ext := "webp";
    NodePath.WildMatchAnyExtension(base, ext);
    assert "." + ext == ".webp";
    assert base + "." + ext == base + ".webp";
  }

  /** `** / piece` after a common literal prefix matches any path that ends in a segment `piece` matches. */
  lemma {:induction false} StarThenPiece(c: seq<string>, piece: string, middle: seq<string>, w: string)
    requires "**" !in c && NodePath.WildMatch(piece, w)
    ensures NodePath.SegmentsMatch(c + ["**", piece], c + (middle + [w]))
  {
    assert NodePath.SegmentsMatch([piece], [w]) by {
      assert [piece][1..] == [] && [w][1..] == [];
    }
    NodePath.GlobStarSkips([piece], middle, [w]);
    assert ["**"] + [piece] == ["**", piece];
    NodePath.SegmentsMatchCommonPrefix(c, ["**", piece], middle + [w]);
  }

  /** The removal glob of a top-level image, in segments. */
  lemma {:induction false} TopLevelPattern(cache: string, name: string)
    requires cache != "" && HasExtension(name)
    ensures var pattern := FSUtils.ClearCachePattern(cache, "/" + name);
      NodePath.Segments(pattern) == NodePath.Segments(cache) + ["**", StripLastExt(name) + ".*"]
      && NodePath.IsAbsolute(pattern) == NodePath.IsAbsolute(cache)
  {
    var pattern := FSUtils.ClearCachePattern(cache, "/" + name);
    var piece := StripLastExt(name) + ".*";
    FSUtils.ClearCachePatternOf(cache, "", name);
    assert NodePath.Named(piece) && '/' !in piece by {
      BaseHasNoSlash(name);
      NamePatternIsPiece(StripLastExt(name));
    }
    TopLevelPatternSegments(cache, piece, pattern);
  }

  /** The glob of a top-level image matches every key whose last segment its name pattern matches. */
  lemma {:induction false} TopLevelPatternMatches(cache: string, name: string, key: string, middle: seq<string>, w: string)
    requires cache != "" && "**" !in NodePath.Segments(cache) && HasExtension(name)
    requires NodePath.Segments(key) == NodePath.Segments(cache) + middle + [w]
    requires NodePath.IsAbsolute(key) == NodePath.IsAbsolute(cache)
    requires NodePath.WildMatch(StripLastExt(name) + ".*", w)
    ensures NodePath.GlobMatch(FSUtils.ClearCachePattern(cache, "/" + name), key)
  {
    TopLevelPattern(cache, name);
    StarGlob(FSUtils.ClearCachePattern(cache, "/" + name), key, NodePath.Segments(cache),
             StripLastExt(name) + ".*", middle, w);
  }

  /** A glob `c/**/piece` matches a path `c/middle/w` whose last segment `piece` matches. */
  lemma {:induction false} StarGlob(pattern: string, key: string, c: seq<string>, piece: string,
                                    middle: seq<string>, w: string)
    requires NodePath.Segments(pattern) == c + ["**", piece]
    requires NodePath.Segments(key) == c + middle + [w]
    requires NodePath.IsAbsolute(pattern) == NodePath.IsAbsolute(key)
    requires "**" !in c && NodePath.WildMatch(piece, w)
    ensures NodePath.GlobMatch(pattern, key)
  {
    assert NodePath.Segments(key) == c + (middle + [w]);
    StarThenPiece(c, piece, middle, w);
  }

  /**
   * Removing a top-level image `/name` clears every derivative the gateway
   * can have made of it: any size, requested from any directory.
   */
  lemma {:induction false} TopLevelRemovalReachesDerivative(cache: string, name: string, dir: string, size: string)
    requires cache != "" && "**" !in NodePath.Segments(cache)
    requires NodePath.GlobFree(cache) && NodePath.GlobFree(name)
    requires HasExtension(name) && '/' !in size
    ensures NodePath.GlobMatch(FSUtils.ClearCachePattern(cache, "/" + name),
                               CacheKey(cache, ParseShape(dir + "/" + size + "/" + name)))
  {
    DerivativeMatches(StripLastExt(name));
    RemovalReachesRequest(cache, name, dir, size, name);
  }

  /** So after removing a top-level image, none of its derivatives remains. */
  lemma {:induction false} TopLevelRemovalClears(s: Snapshot, imagesPath: string, cache: string, name: string,
                              dir: string, size: string)
    requires Consistent(s) && imagesPath + "/" + name in s.files
    requires cache != "" && "**" !in NodePath.Segments(cache)
    requires NodePath.GlobFree(cache) && NodePath.GlobFree(name)
    requires HasExtension(name) && '/' !in size
    ensures var r := FSUtils.RemoveImageSpec(s, imagesPath, cache, "/" + name);
      r.Ok? && r.value.1 == FSUtils.Unlinked
      && CacheKey(cache, ParseShape(dir + "/" + size + "/" + name)) !in r.value.0.files
  {
    assert imagesPath + ("/" + name) == imagesPath + "/" + name;
    TopLevelRemovalReachesDerivative(cache, name, dir, size);
    RemovalClearsMatched(s, imagesPath, cache, "/" + name, CacheKey(cache, ParseShape(dir + "/" + size + "/" + name)));
  }

  /** Unlinking `imagesPath + rel` takes every file the removal glob matches with it. */
  lemma {:induction false} RemovalClearsMatched(s: Snapshot, imagesPath: string, cache: string, rel: string, key: string)
    requires Consistent(s) && imagesPath + rel in s.files
    requires NodePath.GlobMatch(FSUtils.ClearCachePattern(cache, rel), key)
    ensures var r := FSUtils.RemoveImageSpec(s, imagesPath, cache, rel);
      r.Ok? && r.value.1 == FSUtils.Unlinked && key !in r.value.0.files
  {
    assert imagesPath + rel !in s.dirs;
  }

  /** Literal glob segments followed by `**` and a piece agree with paths only on a matching first literal. */
  lemma {:induction false} SubdirectoryMatch(sub: string, piece: string, xs: seq<string>, w: string)
    requires '*' !in sub && piece != "**" && NodePath.WildMatch(piece, w)
    ensures NodePath.SegmentsMatch([sub, "**", piece], xs + [w]) <==> xs != [] && xs[0] == sub
  {
    var ps := [sub, "**", piece];
    var ys := xs + [w];
    assert ps[0] == sub && ps[1..] == ["**", piece];
    NodePath.WildMatchLiteral(sub, ys[0]);
    if xs == [] {
      assert ys[1..] == [];
      NoMatchOfEmpty(piece);
    } else {
      assert ys[0] == xs[0] && ys[1..] == xs[1..] + [w];
      if xs[0] == sub {
        StarThenPiece([], piece, xs[1..], w);
        assert [] + ["**", piece] == ["**", piece] && [] + (xs[1..] + [w]) == xs[1..] + [w];
      }
    }
  }

  /** `** / piece` needs at least one segment. */
  lemma {:induction false} NoMatchOfEmpty(piece: string)
    requires piece != "**"
    ensures !NodePath.SegmentsMatch(["**", piece], [])
  {
    assert ["**", piece][1..] == [piece] && [piece][1..] == [];
    assert !NodePath.SegmentsMatch([piece], []);
  }

  /** The removal glob of an image `/sub/name`, in segments. */
  lemma {:induction false} SubdirectoryPattern(cache: string, sub: string, name: string)
    requires cache != "" && HasExtension(name)
    requires NodePath.Named(sub) && '/' !in sub
    ensures var pattern := FSUtils.ClearCachePattern(cache, "/" + sub + "/" + name);
      NodePath.Segments(pattern) == NodePath.Segments(cache) + [sub, "**", StripLastExt(name) + ".*"]
      && NodePath.IsAbsolute(pattern) == NodePath.IsAbsolute(cache)
  {
    var pattern := FSUtils.ClearCachePattern(cache, "/" + sub + "/" + name);
    var piece := StripLastExt(name) + ".*";
    assert pattern == cache + ("/" + sub) + "/**/" + piece by {
      FSUtils.ClearCachePatternOf(cache, "/" + sub, name);
      assert "/" + sub + "/" + name == ("/" + sub) + "/" + name;
    }
    assert NodePath.Named(piece) && '/' !in piece by {
      BaseHasNoSlash(name);
      NamePatternIsPiece(StripLastExt(name));
    }
    SubdirectoryPatternSegments(cache, sub, piece, pattern);
  }

  /** The glob of `/sub/name` matches a key ending in a derivative of `name` iff the key's first extra segment is `sub`. */
  lemma {:induction false} SubdirectoryPatternMatches(cache: string, sub: string, name: string, key: string, middle: seq<string>)
    requires cache != "" && "**" !in NodePath.Segments(cache) && HasExtension(name)
    requires NodePath.Named(sub) && '/' !in sub && '*' !in sub
    requires NodePath.Segments(key) == NodePath.Segments(cache) + middle + [StripLastExt(name) + ".webp"]
    requires NodePath.IsAbsolute(key) == NodePath.IsAbsolute(cache)
    ensures NodePath.GlobMatch(FSUtils.ClearCachePattern(cache, "/" + sub + "/" + name), key)
      <==> middle != [] && middle[0] == sub
  {
    var piece := StripLastExt(name) + ".*";
    var w := StripLastExt(name) + ".webp";
    SubdirectoryPattern(cache, sub, name);
    assert piece != "**" by {
      BaseHasNoSlash(name);
      NamePatternIsPiece(StripLastExt(name));
    }
    DerivativeMatches(StripLastExt(name));
    SubdirectoryGlob(FSUtils.ClearCachePattern(cache, "/" + sub + "/" + name), key,
                     NodePath.Segments(cache), sub, piece, middle, w);
  }

  /** A glob `c/sub/**/piece` against a path `c/middle/w` whose last segment `piece` matches. */
  lemma {:induction false} SubdirectoryGlob(pattern: string, key: string, c: seq<string>, sub: string,
                                            piece: string, middle: seq<string>, w: string)
    requires NodePath.Segments(pattern) == c + [sub, "**", piece]
    requires NodePath.Segments(key) == c + middle + [w]
    requires NodePath.IsAbsolute(pattern) == NodePath.IsAbsolute(key)
    requires "**" !in c && '*' !in sub && piece != "**" && NodePath.WildMatch(piece, w)
    ensures NodePath.GlobMatch(pattern, key) <==> middle != [] && middle[0] == sub
  {
    assert NodePath.Segments(key) == c + (middle + [w]);
    NodePath.SegmentsMatchCommonPrefix(c, [sub, "**", piece], middle + [w]);
    SubdirectoryMatch(sub, piece, middle, w);
  }

  /**
   * Removing an image `/sub/name` from a sub-directory reaches a derivative
   * exactly when the request had a truthy width and its size segment is
   * literally `sub`; derivatives in the cache root, or under any other size,
   * are left behind.
   */
  lemma {:induction false} SubdirectoryRemovalReach(cache: string, sub: string, name: string, dir: string, size: string)
    requires cache != "" && "**" !in NodePath.Segments(cache)
    requires NodePath.GlobFree(cache) && NodePath.GlobFree(sub) && NodePath.GlobFree(name)
    requires NodePath.Named(sub) && '/' !in sub && '*' !in sub
    requires HasExtension(name) && NodePath.Named(size) && '/' !in size
    ensures var sh := ParseShape(dir + "/" + size + "/" + name);
      (NodePath.GlobMatch(FSUtils.ClearCachePattern(cache, "/" + sub + "/" + name), CacheKey(cache, sh))
       <==> Truthy(sh.width) && size == sub)
  {
    var sh := ParseShape(dir + "/" + size + "/" + name);
    KeyOfRequest(cache, dir, size, name);
    CacheKeySegments(cache, sh);
    NodePath.SegmentsOfPiece(size);
    SubdirectoryPatternMatches(cache, sub, name, CacheKey(cache, sh), if Truthy(sh.width) then [size] else []);
  }

  /** The last `.` of `p + "." + ext`, for a dot-free `ext`, is the one before `ext`. */
  lemma {:induction false} LastDotOfAppended(p: string, ext: string)
    requires '.' !in ext
    ensures LastIndexOf(p + "." + ext, '.') == Some(|p|)
  {
    var s := p + "." + ext;
    assert s[|p|] == '.';
    assert s[|p| + 1..] == ext;
  }

  /**
   * The name pattern over-reaches: removing `/photo.png` also clears the
   * derivatives of a different image `photo.<more>.png`, in any directory.
   */
  lemma {:induction false} RemovalOverReaches(cache: string, stem: string, more: string, dir: string, size: string)
    requires cache != "" && "**" !in NodePath.Segments(cache)
    requires NodePath.GlobFree(cache) && NodePath.GlobFree(stem)
    requires stem != "" && '/' !in stem && '/' !in more && '.' !in more
    requires '/' !in size
    ensures NodePath.GlobMatch(FSUtils.ClearCachePattern(cache, "/" + (stem + ".png")),
                               CacheKey(cache, ParseShape(dir + "/" + size + "/" + (stem + "." + more + ".png"))))
  {
    var removed := stem + ".png";
    var other := stem + "." + more + ".png";
    var w := stem + "." + more + ".webp";
    assert HasExtension(removed) && StripLastExt(removed) == stem
      && '/' !in other && StripLastExt(other) + ".webp" == w by {
      OverReachNames(stem, more);
    }
    assert NodePath.WildMatch(StripLastExt(removed) + ".*", w) by {
      NodePath.WildMatchAnyExtension(stem, more + ".webp");
      assert stem + "." + (more + ".webp") == w;
    }
    assert NodePath.GlobFree(removed) by {
      var ext := ".png";
      assert NodePath.GlobFree(ext);
      NodePath.GlobFreeConcat(stem, ext);
    }
    RemovalReachesRequest(cache, removed, dir, size, other);
  }

  /** The glob of a top-level image reaches the key of any request whose derivative name its name pattern matches. */
  lemma {:induction false} RemovalReachesRequest(cache: string, removed: string, dir: string, size: string, file: string)
    requires cache != "" && "**" !in NodePath.Segments(cache)
    requires NodePath.GlobFree(cache) && NodePath.GlobFree(removed)
    requires HasExtension(removed) && '/' !in size && '/' !in file
    requires NodePath.WildMatch(StripLastExt(removed) + ".*", StripLastExt(file) + ".webp")
    ensures NodePath.GlobMatch(FSUtils.ClearCachePattern(cache, "/" + removed),
                               CacheKey(cache, ParseShape(dir + "/" + size + "/" + file)))
  {
    var sh := ParseShape(dir + "/" + size + "/" + file);
    var key := CacheKey(cache, sh);
    var middle := if Truthy(sh.width) then NodePath.Segments(size) else [];
    var w := StripLastExt(file) + ".webp";
    assert NodePath.Segments(key) == NodePath.Segments(cache) + middle + [w] by {
      KeyOfRequest(cache, dir, size, file);
    }
    assert NodePath.IsAbsolute(key) == NodePath.IsAbsolute(cache) by {
      CacheKeySegments(cache, sh);
    }
    TopLevelPatternMatches(cache, removed, key, middle, w);
  }

  /** What the gateway and the glob make of `stem.png` and `stem.more.png`. */
  lemma {:induction false} OverReachNames(stem: string, more: string)
    requires stem != "" && '/' !in stem && '/' !in more && '.' !in more
    ensures HasExtension(stem + ".png") && StripLastExt(stem + ".png") == stem
    ensures '/' !in stem + "." + more + ".png"
    ensures StripLastExt(stem + "." + more + ".png") + ".webp" == stem + "." + more + ".webp"
  {
    var removed := stem + ".png";
    var other := stem + "." + more + ".png";
    var ext := "png";
    assert '.' !in ext;
    assert removed == stem + "." + ext;
    assert LastIndexOf(removed, '.') == Some(|stem|) by {
      LastDotOfAppended(stem, ext);
    }
    assert StripLastExt(removed) == stem by {
      StripLastExtOfAppended(stem, ext);
    }
    assert other == (stem + "." + more) + "." + ext;
    assert StripLastExt(other) == stem + "." + more by {
      StripLastExtOfAppended(stem + "." + more, ext);
    }
    assert '/' !in other;
  }

  /** The removal glob of a top-level image without an extension. */
  lemma {:induction false} ExtensionlessPattern(cache: string, name: string)
    requires cache != "" && name != "" && '/' !in name && '.' !in name
    ensures var pattern := FSUtils.ClearCachePattern(cache, "/" + name);
      NodePath.Segments(pattern) == NodePath.Segments(cache) + ["**", name + ".*"]
      && NodePath.IsAbsolute(pattern) == NodePath.IsAbsolute(cache)
  {
    var pattern := FSUtils.ClearCachePattern(cache, "/" + name);
    assert NodePath.Stem("/" + name) == name by {
      NodePath.BaseNameOfChild("", name);
      assert "" + "/" + name == "/" + name;
      assert LastIndexOf(name, '.').None?;
    }
    assert pattern == cache + "/" + "/**/" + (name + ".*") by {
      NodePath.DirNameOfTopLevel(name);
    }
    NamePatternIsPiece(name);
    TopLevelPatternSegments(cache, name + ".*", cache + "/" + "/**/" + (name + ".*"));
    assert pattern[0] == cache[0];
  }

  /**
   * A source without an extension gets the derivative `.webp` (its base name
   * is empty once the last `.`-piece is dropped), which its removal glob
   * `<name>.*` misses.
   */
  lemma {:induction false} ExtensionlessSourceLeavesDerivative(cache: string, name: string, dir: string, size: string)
    requires cache != "" && "**" !in NodePath.Segments(cache)
    requires NodePath.GlobFree(cache) && NodePath.GlobFree(name)
    requires name != "" && '/' !in name && '.' !in name && '*' !in name
    requires '/' !in size
    ensures var sh := ParseShape(dir + "/" + size + "/" + name);
      sh.stem == ""
      && !NodePath.GlobMatch(FSUtils.ClearCachePattern(cache, "/" + name), CacheKey(cache, sh))
  {
    var sh := ParseShape(dir + "/" + size + "/" + name);
    var middle := if Truthy(sh.width) then NodePath.Segments(size) else [];
    ExtensionlessKey(cache, name, dir, size);
    ExtensionlessPattern(cache, name);
    assert !NodePath.WildMatch(name + ".*", ".webp") by {
      NameMissesDerivative(name);
    }
    assert name + ".*" != "**" by {
      NamePatternIsPiece(name);
    }
    StarGlobMisses(FSUtils.ClearCachePattern(cache, "/" + name), CacheKey(cache, sh),
                   NodePath.Segments(cache), name + ".*", middle, ".webp");
  }

  /** The request for an extension-less source has an empty stem and the key `<cache>/<size>/.webp`. */
  lemma {:induction false} ExtensionlessKey(cache: string, name: string, dir: string, size: string)
    requires cache != "" && name != "" && '/' !in name && '.' !in name && '/' !in size
    ensures var sh := ParseShape(dir + "/" + size + "/" + name);
      var middle := if Truthy(sh.width) then NodePath.Segments(size) else [];
      sh.stem == ""
      && NodePath.Segments(CacheKey(cache, sh)) == NodePath.Segments(cache) + (middle + [".webp"])
  {
    assert StripLastExt(name) == "" by {
      StripLastExtIsPrefix(name);
    }
    ShapeOfUrl(dir, size, name);
    KeyOfRequest(cache, dir, size, name);
    assert StripLastExt(name) + ".webp" == ".webp";
  }

  /** A name that starts with neither `*` nor `.` does not match `.webp` as the pattern `<name>.*`. */
  lemma {:induction false} NameMissesDerivative(name: string)
    requires name != "" && name[0] != '*' && name[0] != '.'
    ensures !NodePath.WildMatch(name + ".*", ".webp")
  {
    var piece := name + ".*";
    var w := ".webp";
    assert piece[0] == name[0] && w[0] == '.';
  }

  /** A glob `c/**/piece` misses every path `c/middle/w` whose last segment `piece` does not match. */
  lemma {:induction false} StarGlobMisses(pattern: string, key: string, c: seq<string>, piece: string,
                                          middle: seq<string>, w: string)
    requires NodePath.Segments(pattern) == c + ["**", piece]
    requires NodePath.Segments(key) == c + (middle + [w])
    requires "**" !in c && piece != "**" && !NodePath.WildMatch(piece, w)
    ensures !NodePath.GlobMatch(pattern, key)
  {
    NoMatchAfterStar(piece, middle, w);
    NodePath.SegmentsMatchCommonPrefix(c, ["**", piece], middle + [w]);
  }

  /** `**` then a piece matches a path only if the piece matches its last segment. */
  lemma {:induction false} NoMatchAfterStar(piece: string, xs: seq<string>, w: string)
    requires piece != "**" && !NodePath.WildMatch(piece, w)
    ensures !NodePath.SegmentsMatch(["**", piece], xs + [w])
    decreases |xs|
  {
    var ps := ["**", piece];
    assert ps[1..] == [piece] && [piece][1..] == [];
    var ys := xs + [w];
    if xs == [] {
      assert ys == [w] && ys[1..] == [];
      NoMatchOfEmpty(piece);
    } else {
      assert ys[1..] == xs[1..] + [w];
      NoMatchAfterStar(piece, xs[1..], w);
      assert !NodePath.SegmentsMatch([piece], ys) by {
        assert ys[1..] != [];
      }
    }
  }
}
