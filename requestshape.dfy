/**
 * What the WebP gateway reads off a request URL: the file name (last `/`
 * piece), the size segment (the piece before it), the width and height read
 * from the size with `parseInt`, and the cache path of the derivative; and the
 * rewrite that points the URL at the `.webp` file.
 */
module RequestShape {
  import opened Wrappers
  import opened JsString
  import opened JsNumber
  import NodePath

  /** The parts of a request URL the gateway uses. */
  datatype Shape = Shape(fileName: string, size: string, width: Option<int>, height: Option<int>, stem: string)

  /** How the derivative is produced from the source. */
  datatype Variant = ResizeBox(width: int, height: int) | ResizeWidth(width: int) | Reencode

  /** `url.split("/").pop()`. */
  function FileName(url: string): string {
    Last(Split(url, '/'))
  }

  /** `url.split("/").slice(-2)[0]`: the second-to-last piece, or the only one. */
  function SizeSegment(url: string): string {
    var pieces := Split(url, '/');
    if |pieces| >= 2 then pieces[|pieces| - 2] else pieces[0]
  }

  /**
   * Width and height from `size.split("x")`; a missing second piece is
   * `undefined`, which `parseInt` reads as the text "undefined".
   */
  function Dimensions(size: string): (Option<int>, Option<int>) {
    var xs := Split(size, 'x');
    (ParseInt(xs[0]), ParseInt(if |xs| >= 2 then xs[1] else "undefined"))
  }

  /** The shape of a request: the file name and the size are whole pieces of the URL between `/`. */
  function ParseShape(url: string): (sh: Shape)
    ensures '/' !in sh.fileName && '/' !in sh.size
  {
    var size := SizeSegment(url);
    var dims := Dimensions(size);
    var name := FileName(url);
    Shape(name, size, dims.0, dims.1, StripLastExt(name))
  }

  /** A number JavaScript treats as true: not `null` and not zero. */
  predicate Truthy(n: Option<int>) {
    n.Some? && n.value != 0
  }

  /** `path.join(cache, width ? size : "", base + ".webp")`. */
  function CacheKey(cache: string, sh: Shape): (key: string)
    ensures cache != "" ==> NodePath.IsAbsolute(key) == NodePath.IsAbsolute(cache)
  {
    var parts := [cache, if Truthy(sh.width) then sh.size else "", sh.stem + ".webp"];
    NodePath.JoinAbsolute(parts);
    NodePath.Join(parts)
  }

  /** `resize(width, height)`, `resize(width)` or a plain re-encode. */
  function VariantFor(sh: Shape): (v: Variant)
    ensures v == Reencode <==> !Truthy(sh.width)
    ensures v.ResizeBox? ==> v.width != 0 && v.height != 0
    ensures v.ResizeWidth? ==> v.width != 0 && !Truthy(sh.height)
  {
    if Truthy(sh.width) then
      if Truthy(sh.height) then ResizeBox(sh.width.value, sh.height.value) else ResizeWidth(sh.width.value)
    else Reencode
  }

  /** `url.split(".").slice(0, -1).join(".") + ".webp"`: the rewritten URL always names a `.webp` file. */
  function RewriteUrl(url: string): (r: string)
    ensures EndsWith(r, ".webp")
  {
    var r := StripLastExt(url) + ".webp";
    assert r[|r| - 5..] == ".webp";
    r
  }

  // ---------------------------------------------------------------------
  // The URL rewrite

  /** The rewrite leaves a URL as it is exactly when it already ends in `.webp`. */
  lemma {:induction false} RewriteFixedExactly(url: string)
    ensures RewriteUrl(url) == url <==> EndsWith(url, ".webp")
  {
    if EndsWith(url, ".webp") {
      var base := url[..|url| - 5];
      var ext := "webp";
      assert url == base + "." + ext;
      StripLastExtOfAppended(base, ext);
    }
  }

  /** Rewriting twice is rewriting once. */
  lemma {:induction false} RewriteIdempotent(url: string)
    ensures RewriteUrl(RewriteUrl(url)) == RewriteUrl(url)
  {
    StripLastExtOfAppended(StripLastExt(url), "webp");
    assert StripLastExt(url) + ".webp" == StripLastExt(url) + "." + "webp";
  }

  /**
   * Everything after the last `.` becomes `webp`; a URL without a `.` is
   * replaced by `.webp` outright.
   */
  lemma {:induction false} RewriteReplacesExtension(url: string)
    ensures LastIndexOf(url, '.').Some? ==> RewriteUrl(url) == url[..LastIndexOf(url, '.').value] + ".webp"
    ensures LastIndexOf(url, '.').None? ==> RewriteUrl(url) == ".webp"
  {
    StripLastExtIsPrefix(url);
  }

  // ---------------------------------------------------------------------
  // Reading the URL

  /** In `dir/size/file`, the file name is `file` and the size segment is `size`. */
  lemma {:induction false} ShapeOfUrl(dir: string, size: string, file: string)
    requires '/' !in size && '/' !in file
    ensures FileName(dir + "/" + size + "/" + file) == file
    ensures SizeSegment(dir + "/" + size + "/" + file) == size
  {
    var url := dir + "/" + size + "/" + file;
    assert url == (dir + ['/'] + size) + ['/'] + file;
    SplitAround(dir + ['/'] + size, file, '/');
    SplitAround(dir, size, '/');
    SplitNoSeparator(size, '/');
    SplitNoSeparator(file, '/');
    var pieces := Split(dir, '/') + [size] + [file];
    assert Split(url, '/') == pieces;
    assert pieces[|pieces| - 2] == size;
  }

  /** A size without `x` never gives a height. */
  lemma {:induction false} NoXNoHeight(size: string)
    requires 'x' !in size
    ensures Dimensions(size).1 == None
  {
    SplitNoSeparator(size, 'x');
    ParseIntNeedsDigit("undefined");
  }

  /** `<w>x<h>` with decimal digits reads as width `w` and height `h`. */
  lemma {:induction false} DimensionsOfDigits(w: string, h: string)
    requires w != [] && AllDigits(w) && h != [] && AllDigits(h)
    ensures Dimensions(w + "x" + h) == (Some(DecimalValue(w) as int), Some(DecimalValue(h) as int))
  {
    DigitsAvoid(w, 'x');
    DigitsAvoid(h, 'x');
    assert w + "x" + h == w + ['x'] + h;
    SplitAround(w, h, 'x');
    SplitNoSeparator(w, 'x');
    SplitNoSeparator(h, 'x');
    ParseIntOfDigits(w, "");
    ParseIntOfDigits(h, "");
    assert w + "" == w && h + "" == h;
  }

  /** A bare number as size gives the width and no height. */
  lemma {:induction false} DimensionsOfWidth(w: string)
    requires w != [] && AllDigits(w)
    ensures Dimensions(w) == (Some(DecimalValue(w) as int), None)
  {
    DigitsAvoid(w, 'x');
    NoXNoHeight(w);
    SplitNoSeparator(w, 'x');
    ParseIntOfDigits(w, "");
    assert w + "" == w;
  }

  // ---------------------------------------------------------------------
  // The cache key

  /**
   * The key's segments are the cache root's, then the size segment's when the
   * width is truthy, then the base name with `.webp`.
   */
  lemma {:induction false} CacheKeySegments(cache: string, sh: Shape)
    ensures NodePath.Segments(CacheKey(cache, sh)) ==
      NodePath.Segments(cache)
      + (if Truthy(sh.width) then NodePath.Segments(sh.size) else [])
      + NodePath.Segments(sh.stem + ".webp")
  {
    var middle := if Truthy(sh.width) then sh.size else "";
    var webp := sh.stem + ".webp";
    var parts := [cache, middle, webp];
    assert NodePath.Segments(CacheKey(cache, sh)) == NodePath.AllSegments(parts) by {
      NodePath.JoinSegments(parts);
    }
    assert NodePath.AllSegments(parts) == NodePath.Segments(cache) + NodePath.AllSegments([middle, webp]) by {
      assert parts[1..] == [middle, webp];
    }
    assert NodePath.AllSegments([middle, webp]) == NodePath.Segments(middle) + NodePath.Segments(webp) by {
      assert [middle, webp][1..] == [webp];
      assert NodePath.AllSegments([webp]) == NodePath.Segments(webp) by {
        assert [webp][1..] == [];
      }
    }
    assert NodePath.Segments(middle) == if Truthy(sh.width) then NodePath.Segments(sh.size) else [] by {
      NodePath.SegmentsOfEmpty();
    }
  }

  /**
   * For a request `dir/size/file` the derivative lives at
   * `cache/size/<file without extension>.webp` when the width is truthy and at
   * `cache/<file without extension>.webp` otherwise.
   */
  lemma {:induction false} KeyOfRequest(cache: string, dir: string, size: string, file: string)
    requires '/' !in size && '/' !in file
    ensures var sh := ParseShape(dir + "/" + size + "/" + file);
      NodePath.Segments(CacheKey(cache, sh)) ==
        NodePath.Segments(cache)
        + (if Truthy(sh.width) then NodePath.Segments(size) else [])
        + [StripLastExt(file) + ".webp"]
  {
    var url := dir + "/" + size + "/" + file;
    ShapeOfUrl(dir, size, file);
    var sh := ParseShape(url);
    CacheKeySegments(cache, sh);
    StripLastExtIsPrefix(file);
    var webp := StripLastExt(file) + ".webp";
    StemHasNoSlash(file);
    NodePath.SegmentsOfPiece(webp);
  }

  /** A file name without `/` keeps none once its extension is dropped. */
  lemma {:induction false} StemHasNoSlash(file: string)
    requires '/' !in file
    ensures '/' !in StripLastExt(file) + ".webp"
  {
    StripLastExtIsPrefix(file);
    match LastIndexOf(file, '.')
    case None =>
    case Some(k) =>
      assert forall c :: c in file[..k] ==> c in file;
  }

  /**
   * The key depends on the last two URL segments only: two sources with the
   * same name and size in different directories share one derivative.
   */
  lemma {:induction false} KeyIgnoresDirectory(cache: string, dir1: string, dir2: string, size: string, file: string)
    requires '/' !in size && '/' !in file
    ensures CacheKey(cache, ParseShape(dir1 + "/" + size + "/" + file))
         == CacheKey(cache, ParseShape(dir2 + "/" + size + "/" + file))
  {
    ShapeOfUrl(dir1, size, file);
    ShapeOfUrl(dir2, size, file);
  }

  // ---------------------------------------------------------------------
  // Examples

  /**
   * For `dir/<w>x<h>/file` with decimal digits: a zero width re-encodes, a
   * zero height resizes by width, otherwise the derivative fits into the box.
   */
  lemma {:induction false} VariantOfSizedRequest(dir: string, w: string, h: string, file: string)
    requires w != [] && AllDigits(w) && h != [] && AllDigits(h)
    requires '/' !in file
    ensures var sh := ParseShape(dir + "/" + (w + "x" + h) + "/" + file);
      VariantFor(sh) ==
        if DecimalValue(w) == 0 then Reencode
        else if DecimalValue(h) == 0 then ResizeWidth(DecimalValue(w))
        else ResizeBox(DecimalValue(w), DecimalValue(h))
  {
    var size := w + "x" + h;
    assert '/' !in size by {
      DigitsAvoid(w, '/');
      DigitsAvoid(h, '/');
    }
    ShapeOfUrl(dir, size, file);
    DimensionsOfDigits(w, h);
  }

  /** For `dir/<w>/file` with decimal digits: resize by width, unless it is zero. */
  lemma {:induction false} VariantOfWidthRequest(dir: string, w: string, file: string)
    requires w != [] && AllDigits(w)
    requires '/' !in file
    ensures var sh := ParseShape(dir + "/" + w + "/" + file);
      VariantFor(sh) == if DecimalValue(w) == 0 then Reencode else ResizeWidth(DecimalValue(w))
  {
    DigitsAvoid(w, '/');
    ShapeOfUrl(dir, w, file);
    DimensionsOfWidth(w);
  }

  /**
   * A size segment that does not start like a number (a directory name such as
   * the endpoint itself) gives no width: a plain re-encode into the cache root.
   */
  lemma {:induction false} UnsizedRequest(cache: string, dir: string, size: string, file: string)
    requires '/' !in size && '/' !in file
    requires size == [] || (!IsDigit(size[0]) && !IsWhiteSpace(size[0]) && size[0] != '+' && size[0] != '-')
    ensures var sh := ParseShape(dir + "/" + size + "/" + file);
      VariantFor(sh) == Reencode
      && NodePath.Segments(CacheKey(cache, sh)) == NodePath.Segments(cache) + [StripLastExt(file) + ".webp"]
  {
    var sh := ParseShape(dir + "/" + size + "/" + file);
    assert sh.width == None by {
      ShapeOfUrl(dir, size, file);
      var xs := Split(size, 'x');
      assert xs[0] == [] || xs[0][0] == size[0] by {
        SplitFirstPiece(size, 'x');
      }
      ParseIntNeedsDigit(xs[0]);
    }
    KeyOfRequest(cache, dir, size, file);
  }

  /** The first piece of a split starts where the string does. */
  lemma {:induction false} SplitFirstPiece(s: string, sep: char)
    ensures var p := Split(s, sep)[0]; p == [] || (s != [] && p[0] == s[0])
  {
  }

  /** A three-digit decimal string and its value. */
  lemma {:induction false} ThreeDigits(s: string)
    requires |s| == 3 && IsDigit(s[0]) && IsDigit(s[1]) && IsDigit(s[2])
    ensures AllDigits(s)
    ensures DecimalValue(s) == 100 * DigitValue(s[0]) + 10 * DigitValue(s[1]) + DigitValue(s[2])
  {
    var tail1 := s[1..];
    var tail2 := tail1[1..];
    assert tail2[1..] == [] && tail2[0] == s[2] && tail1[0] == s[1];
    assert AllDigits(tail2);
    assert AllDigits(tail1);
    var init2 := s[..2];
    var init1 := init2[..1];
    assert init1[..0] == [] && init1[0] == s[0] && init2[1] == s[1];
    assert DecimalValue(init1) == DigitValue(s[0]);
    assert DecimalValue(init2) == 10 * DigitValue(s[0]) + DigitValue(s[1]);
  }

  /** A size `200x100` resizes into a 200 by 100 box. */
  lemma {:induction false} BoxExample(dir: string, w: string, h: string, file: string)
    requires w == "200" && h == "100" && '/' !in file
    ensures VariantFor(ParseShape(dir + "/" + (w + "x" + h) + "/" + file)) == ResizeBox(200, 100)
  {
    ThreeDigits(w);
    ThreeDigits(h);
    VariantOfSizedRequest(dir, w, h, file);
  }

  /** A zero height is false, so `200x0` resizes by width only. */
  lemma {:induction false} ZeroHeightExample(dir: string, w: string, h: string, file: string)
    requires w == "200" && h == "0" && '/' !in file
    ensures VariantFor(ParseShape(dir + "/" + (w + "x" + h) + "/" + file)) == ResizeWidth(200)
  {
    assert AllDigits(w) && DecimalValue(w) == 200 by {
      ThreeDigits(w);
    }
    assert AllDigits(h) && DecimalValue(h) == 0 by {
      assert h[1..] == [] && h[..0] == [];
    }
    VariantOfSizedRequest(dir, w, h, file);
  }

  /** A zero width is false, so `0x300` re-encodes at full size. */
  lemma {:induction false} ZeroWidthExample(dir: string, w: string, h: string, file: string)
    requires w == "0" && h == "300" && '/' !in file
    ensures VariantFor(ParseShape(dir + "/" + (w + "x" + h) + "/" + file)) == Reencode
  {
    ThreeDigits(h);
    assert w[1..] == [] && w[..0] == [];
    VariantOfSizedRequest(dir, w, h, file);
  }

  lemma {:induction false} PhotoStem()
    ensures StripLastExt("photo.png") == "photo"
  {
    assert "photo.png" == "photo" + "." + "png";
    StripLastExtOfAppended("photo", "png");
  }
}
