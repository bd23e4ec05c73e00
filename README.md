# RouteInjector image gallery — a Dafny model

RouteInjector serves an image gallery over HTTP. This project models the
gallery's core and proves properties about it. The core has two parts:

- The **WebP gateway**, an Express middleware. It intercepts image requests,
  negotiates WebP with the client, and derives a cache key from the request
  URL. On a miss it generates the derivative; then it rewrites the URL so the
  static layer serves `cache/[size/]<base>.webp`.
- The gallery's **file-system helpers**: MIME classification, directory
  listings, the classified file map, glob-result prefixing, `remove`,
  `removeImage`, and the cache-invalidation glob of `clearCache`.

Modules, one concern each:

- `Wrappers`: `Option` and `Result`.
- `JsString`: JavaScript's `split`, `join`, `pop`, `slice(0, -1)`,
  `includes`, `startsWith` and the global `replace`, on `seq<char>`.
- `JsNumber`: `parseInt` (whitespace, sign, `0x`) and `parseFloat`
  (sign, `Infinity`, decimals, exponent), computed exactly over `real`.
- `NodePath`: POSIX `path.join`, `dirname`, `basename`, `extname`
  and `relative` over path segments, plus the `*`/`**` glob match.
- `Negotiation`: `supportsWebP`.
- `RequestShape`: the file name, size segment, width, height and base
  name read from a URL; the cache key; the resize variant; the URL rewrite.
- `Optimiser`: the command `optimiseImage` would run.
- `Upload`: the response-URL loop of the upload route, over an array.
- `FileSystem`: a snapshot of the disk as a value (the sets of file and
  directory paths), and the class `Disk` whose methods change it.
- `FSUtils`: the FSUtils helpers listed above.
- `Gateway`: the middleware as a class over a `Request` and a `Disk`,
  its pure decision procedure, the existence check and the delete route.
- `Invalidation`: which derivatives the `removeImage` glob reaches,
  compared with the keys the gateway writes.

Behaviour worth knowing, as the code has it:

- The gateway never calls the optimiser. `optimiseImage` is only handed to
  imgr (lib/engine/routeinjector/images/GalleryInjector.ts:146-148).
- The source is looked up by the URL's last segment only, directly under
  the image root (lib/engine/routeinjector/images/GalleryInjector.ts:189-190). Derivatives of same-named files in
  different gallery directories therefore collide
  (`Gateway.DirectoriesShareDerivative`).
- The HTTP delete route calls `remove`, not `removeImage` (lib/engine/routeinjector/images/GalleryInjector.ts:253). It
  clears no derivative. A non-empty directory is reported removed but is
  kept.
- The existence check joins the gallery root and the requested path with
  `path.join`, which resolves `..` (lib/engine/routeinjector/images/GalleryInjector.ts:263-264). A delete request such as
  `<endpoint>/../x` therefore checks, and then removes, `/x`, outside the
  gallery root. The route stays under the root only for `..`-free paths
  (`Gateway.CheckedPathUnderGallery`).
- After a source is deleted, the gateway passes later requests for it
  through untouched (`Gateway.DeletedSourcePassesThrough`).
- The invalidation glob is rooted at the source's own directory under the
  cache. The gateway's keys carry no source directory. So a delete reaches
  more derivatives than intended, or fewer (`Invalidation`).
- The glob is built by plain concatenation, so fast-glob reads any glob
  syntax in a file name (lib/utils/FSUtils.ts:163-165). A URL does not
  encode `[`, `]`, `(` or `)`, and the gateway writes `photo[1].webp` for a
  request for `photo[1].png`. Removing `photo[1].png` then globs
  `photo[1].*`, which matches `photo1.webp` and misses `photo[1].webp`; a
  name such as `photo(1).png` or `photo[1].png` leaves its derivatives in
  the cache. The invalidation lemmas are stated for names free of such
  syntax (`NodePath.GlobFree`).

## Model

| member | source | states |
|---|---|---|
| JsString.JoinSplit | lib/engine/routeinjector/images/GalleryInjector.ts:179 | joining the pieces of `split(sep)` with `sep` gives back the string |
| JsString.SplitJoin | lib/engine/routeinjector/images/GalleryInjector.ts:179 | splitting a join of separator-free pieces gives back the pieces |
| JsString.StripLastExtIsPrefix | lib/engine/routeinjector/images/GalleryInjector.ts:179 | `split(".").slice(0,-1).join(".")` is the text before the last `.`, or empty when there is none |
| JsString.StripLastExtOfAppended | lib/engine/routeinjector/images/GalleryInjector.ts:201 | dropping the last extension of `p.ext` (dot-free `ext`) gives `p` |
| JsString.ReplaceAll | lib/utils/FSUtils.ts:78 | the global replace keeps the length and leaves no occurrence of the replaced character |
| JsNumber.ParseIntOfDigits | lib/engine/routeinjector/images/GalleryInjector.ts:199-200 | `parseInt` of a digit run followed by a non-digit is that run's decimal value |
| JsNumber.ParseIntNeedsDigit | lib/engine/routeinjector/images/GalleryInjector.ts:199-200 | `parseInt` of a text that starts with no digit, sign or space is NaN (`None`) |
| JsNumber.ParseInt | lib/engine/routeinjector/images/GalleryInjector.ts:199-200 | nothing left after white space and sign is NaN; a value is never positive after a `-` and never negative without one |
| JsNumber.FractionBelowOne | lib/engine/routeinjector/images/GalleryInjector.ts:164 | the fractional digits contribute a value in [0, 1) |
| JsNumber.ParseFloatOfDecimal | lib/engine/routeinjector/images/GalleryInjector.ts:164 | `parseFloat("d.f")` is d plus the fraction of f |
| JsNumber.ParseFloatOfWhole | lib/engine/routeinjector/images/GalleryInjector.ts:164 | `parseFloat("d")` of a bare digit run is its decimal value |
| JsNumber.WholeAtLeast | lib/engine/routeinjector/images/GalleryInjector.ts:164-165 | `parseFloat("d") >= n` holds iff d is at least n |
| JsNumber.DecimalAtLeast | lib/engine/routeinjector/images/GalleryInjector.ts:164-165 | `parseFloat("d.f") >= n` holds iff the whole part d is at least n |
| JsNumber.ParseFloatOfWord | lib/engine/routeinjector/images/GalleryInjector.ts:164 | `parseFloat` of a word starting with a letter other than `I` is NaN |
| JsNumber.ParseFloat | lib/engine/routeinjector/images/GalleryInjector.ts:164 | nothing left after white space and sign is NaN; a finite value has the sign written, and so has an infinity |
| NodePath.JoinSegments | lib/utils/FSUtils.ts:62 | `path.join` yields exactly the meaningful segments of its parts, in order |
| NodePath.JoinAbsolute | lib/utils/FSUtils.ts:62 | with no non-empty part the join is `.`; otherwise it is absolute iff its first non-empty part is, which is the first part whenever that one is non-empty |
| NodePath.JoinAvoids | lib/utils/FSUtils.ts:62 | `path.join` introduces no character that none of its parts has (other than `/` and `.`) |
| NodePath.Join | lib/utils/FSUtils.ts:62 | `path.join` never yields the empty string |
| NodePath.DirNameOfChild | lib/utils/FSUtils.ts:160 | `dirname(d + "/" + n)` is `d` for a name `n` |
| NodePath.DirNameOfTopLevel | lib/utils/FSUtils.ts:160 | `dirname("/" + n)` is `/` |
| NodePath.DirName | lib/utils/FSUtils.ts:160 | `dirname` is never empty and is absolute iff its argument is |
| NodePath.BaseName | lib/utils/FSUtils.ts:161 | `basename` contains no `/` |
| NodePath.BaseNameOfChild | lib/utils/FSUtils.ts:161 | `basename(d + "/" + n)` is `n` |
| NodePath.Stem | lib/utils/FSUtils.ts:161 | `basename(p, extname(p))` followed by `extname(p)` is `basename(p)` |
| NodePath.ExtName | lib/utils/FSUtils.ts:161 | `extname(p)` is a suffix of `basename(p)` |
| NodePath.StemOfChild | lib/utils/FSUtils.ts:161 | for a name with an extension, `basename(rel, extname(rel))` equals the gateway's base name |
| NodePath.RelativeBelow | lib/utils/FSUtils.ts:54-56 | `relative(root, p)` for `p` below `root` is the remaining segments joined by `/` |
| NodePath.Relative | lib/utils/FSUtils.ts:54-56 | `relative` never yields an absolute path |
| NodePath.WildMatchLiteral | lib/utils/FSUtils.ts:165 | a `*`-free glob segment matches exactly itself |
| NodePath.WildMatchAnyExtension | lib/utils/FSUtils.ts:163 | `<stem>.*` matches `<stem>.<anything>` |
| NodePath.SegmentsMatchCommonPrefix | lib/utils/FSUtils.ts:165 | a shared literal prefix of glob and path does not change the match |
| NodePath.GlobStarSkips | lib/utils/FSUtils.ts:163-165 | `**` matches any number of leading path segments |
| NodePath.GlobMatchLiteral | lib/utils/FSUtils.ts:163-165 | a glob with no `*` matches exactly the paths with its segments and its absoluteness |
| Negotiation.SupportsWebP | lib/engine/routeinjector/images/GalleryInjector.ts:151-172 | an `Accept` with `image/webp` always qualifies; without it only a user agent containing `Firefox` can |
| Negotiation.AcceptWins | lib/engine/routeinjector/images/GalleryInjector.ts:153-156 | an `Accept` with `image/webp` wins whatever the user agent |
| Negotiation.OtherBrowsersRejected | lib/engine/routeinjector/images/GalleryInjector.ts:157-171 | without the `Accept` token, a missing or non-Firefox user agent is refused |
| Negotiation.NoHeadersNoWebP | lib/engine/routeinjector/images/GalleryInjector.ts:151-172 | absent headers are refused |
| Negotiation.FirefoxVersionDecides | lib/engine/routeinjector/images/GalleryInjector.ts:160-166 | for Firefox with version `w.f` or a bare `w`, WebP iff the whole part w is at least 65 |
| Negotiation.UnparseableVersionRejected | lib/engine/routeinjector/images/GalleryInjector.ts:164-165 | a version that `parseFloat` cannot read is refused |
| Negotiation.Firefox70Supported | lib/engine/routeinjector/images/GalleryInjector.ts:160-166 | `Firefox/70.0` is accepted |
| Negotiation.Firefox64Rejected | lib/engine/routeinjector/images/GalleryInjector.ts:160-166 | `Firefox/64.9` is refused |
| Negotiation.Firefox60Rejected | lib/engine/routeinjector/images/GalleryInjector.ts:160-166 | `Firefox/60.0` with a non-WebP `Accept` is refused |
| RequestShape.RewriteUrl | lib/engine/routeinjector/images/GalleryInjector.ts:179 | the rewritten URL ends in `.webp` |
| RequestShape.RewriteFixedExactly | lib/engine/routeinjector/images/GalleryInjector.ts:179 | the rewrite leaves a URL unchanged iff it already ends in `.webp` |
| RequestShape.RewriteIdempotent | lib/engine/routeinjector/images/GalleryInjector.ts:227 | rewriting a rewritten URL changes nothing |
| RequestShape.RewriteReplacesExtension | lib/engine/routeinjector/images/GalleryInjector.ts:227 | the rewrite replaces what follows the last `.` with `webp`; without a `.` the URL becomes `.webp` |
| RequestShape.ShapeOfUrl | lib/engine/routeinjector/images/GalleryInjector.ts:189-196 | the file name is the last URL segment and the size is the one before it |
| RequestShape.ParseShape | lib/engine/routeinjector/images/GalleryInjector.ts:189-201 | the file name and the size are whole URL pieces, free of `/` |
| RequestShape.NoXNoHeight | lib/engine/routeinjector/images/GalleryInjector.ts:197-200 | a size segment with no `x` has no height |
| RequestShape.DimensionsOfDigits | lib/engine/routeinjector/images/GalleryInjector.ts:197-200 | `WxH` in digits yields width W and height H |
| RequestShape.DimensionsOfWidth | lib/engine/routeinjector/images/GalleryInjector.ts:197-200 | a bare digit run yields that width and no height |
| RequestShape.CacheKey | lib/engine/routeinjector/images/GalleryInjector.ts:203 | for a non-empty cache root, the key is absolute iff the root is |
| RequestShape.CacheKeySegments | lib/engine/routeinjector/images/GalleryInjector.ts:203 | the key is the cache root, then the size segment verbatim when the width is truthy, then `<base>.webp` |
| RequestShape.KeyOfRequest | lib/engine/routeinjector/images/GalleryInjector.ts:189-203 | for `dir/size/file`, the key's segments are the cache's, the size's (truthy width only) and `<base of file>.webp` |
| RequestShape.KeyIgnoresDirectory | lib/engine/routeinjector/images/GalleryInjector.ts:189-203 | the key does not depend on the URL's directory part |
| RequestShape.VariantFor | lib/engine/routeinjector/images/GalleryInjector.ts:205-221 | the source is re-encoded iff the width is falsy; a box resize has no zero side, and a width-only resize comes with a falsy height |
| RequestShape.VariantOfSizedRequest | lib/engine/routeinjector/images/GalleryInjector.ts:207-211 | `WxH` with both non-zero resizes to the box W×H |
| RequestShape.VariantOfWidthRequest | lib/engine/routeinjector/images/GalleryInjector.ts:207-215 | a bare non-zero width resizes to that width |
| RequestShape.UnsizedRequest | lib/engine/routeinjector/images/GalleryInjector.ts:199-221 | a size segment that starts with no number re-encodes, keyed in the cache root |
| RequestShape.BoxExample | lib/engine/routeinjector/images/GalleryInjector.ts:209-211 | `200x100` resizes to 200×100 |
| RequestShape.ZeroHeightExample | lib/engine/routeinjector/images/GalleryInjector.ts:213-215 | `200x0` resizes to width 200 only |
| RequestShape.ZeroWidthExample | lib/engine/routeinjector/images/GalleryInjector.ts:219-221 | `0x300` re-encodes |
| RequestShape.PhotoStem | lib/engine/routeinjector/images/GalleryInjector.ts:201 | the base name of `photo.png` is `photo` |
| Optimiser.OptimiseCommand | lib/engine/routeinjector/images/GalleryInjector.ts:111-141 | a command runs only for a name ending in `.png`, `.jpg` or `.jpeg`, in any case |
| Optimiser.PngInAnyCase | lib/engine/routeinjector/images/GalleryInjector.ts:113-116 | a name ending in `.png`, in any case, runs `optipng "<escaped path>"` |
| Optimiser.JpegInAnyCase | lib/engine/routeinjector/images/GalleryInjector.ts:126-129 | `.jpg` or `.jpeg`, in any case, runs `jpegoptim -m90 -o "<escaped path>"` |
| Optimiser.GifSkipped | lib/engine/routeinjector/images/GalleryInjector.ts:138-140 | a `.gif` runs no command |
| Optimiser.WebPSkipped | lib/engine/routeinjector/images/GalleryInjector.ts:138-140 | a `.webp` runs no command |
| Optimiser.EscapeFirstDollar | lib/engine/routeinjector/images/GalleryInjector.ts:115 | the escaped path is one character longer iff the path has a `$`, and never starts with `$` |
| Optimiser.EscapeRoundTrip | lib/engine/routeinjector/images/GalleryInjector.ts:115 | dropping the backslash before the first `$` gives back the path |
| Optimiser.EscapeWithoutDollar | lib/engine/routeinjector/images/GalleryInjector.ts:115 | a path without `$` is unchanged |
| Optimiser.EscapeFirstOnly | lib/engine/routeinjector/images/GalleryInjector.ts:115 | the first `$` becomes a backslash followed by `$` |
| Optimiser.SecondDollarUnescaped | lib/engine/routeinjector/images/GalleryInjector.ts:127 | a second `$` is left unescaped |
| Optimiser.EscapeInsertsBackslash | lib/engine/routeinjector/images/GalleryInjector.ts:115 | escaping inserts one backslash before the first `$` and changes nothing else |
| Optimiser.FirstDollar | lib/engine/routeinjector/images/GalleryInjector.ts:115 | the position found holds the first `$` |
| Optimiser.CommandQuotesPath | lib/engine/routeinjector/images/GalleryInjector.ts:113-129 | when a command runs, the text between its quotes with the inserted backslash removed is the image path again, and the tool is `optipng` iff the name ends in `.png` in any case |
| Optimiser.QuotedAfterTool | lib/engine/routeinjector/images/GalleryInjector.ts:116 | for a tool name without `"`, the text between the first `"` and the last character of `tool "arg"` is `arg` |
| Upload.PartialPath | lib/engine/routeinjector/images/GalleryInjector.ts:98-101 | the partial path starts with prefix and endpoint and ends in `/` |
| Upload.PublicUrls | lib/engine/routeinjector/images/GalleryInjector.ts:102-104 | one entry per upload, each a URL |
| Upload.PublishUrls | lib/engine/routeinjector/images/GalleryInjector.ts:102-104 | the loop overwrites `files` in place, with the public URL of every upload |
| Upload.PublicUrlsExactly | lib/engine/routeinjector/images/GalleryInjector.ts:102-104 | same count and order; entry i is the partial path plus upload i's original name |
| Upload.UrlSegments | lib/engine/routeinjector/images/GalleryInjector.ts:98-103 | the URL's segments are the prefix's, the endpoint's, the path's and the name's |
| FileSystem.Disk.Unlink | lib/utils/FSUtils.ts:154 | the file leaves the file set; nothing else changes |
| FileSystem.Disk.RemoveDirectory | lib/utils/FSUtils.ts:151 | the directory leaves the directory set; nothing else changes |
| FileSystem.Disk.WriteFile | lib/engine/routeinjector/images/GalleryInjector.ts:211 | the derivative joins the file set; nothing else changes |
| FSUtils.ClassifyFile | lib/utils/FSUtils.ts:103-116 | the bucket is always `image`, `video` or `file` |
| FSUtils.ClassOfMime | lib/utils/FSUtils.ts:103-116 | `t/sub` is `t` when `t` is `image` or `video`, else `file` |
| FSUtils.ClassExamples | lib/utils/FSUtils.ts:105-113 | `image/*` is an image, `video/*` a video, `application/*` a file |
| FSUtils.GetDirectories | lib/utils/FSUtils.ts:19-27 | nothing for a missing path; otherwise exactly the names of the directory entries, or the listing's error |
| FSUtils.GetFiles | lib/utils/FSUtils.ts:69-73 | exactly the names of the regular-file entries, or the listing's error |
| FSUtils.NamesOfKindMembers | lib/utils/FSUtils.ts:21-23 | a name is listed iff some entry of that kind has it |
| FSUtils.NamesOfKindAppend | lib/utils/FSUtils.ts:21-23 | filtering keeps listing order |
| FSUtils.KindsPartition | lib/utils/FSUtils.ts:69-73 | directories, regular files and other entries together account for every entry |
| FSUtils.ClassifiedMap | lib/utils/FSUtils.ts:82-97 | the map always has the key `directories` |
| FSUtils.GetClassifiedFileMap | lib/utils/FSUtils.ts:82-97 | the loop builds the classified map of the listing, or fails with the listing's error |
| FSUtils.ClassifiedDirectories | lib/utils/FSUtils.ts:83-89 | `directories` is always a key and lists the directory entries in order |
| FSUtils.ClassifiedBucket | lib/utils/FSUtils.ts:90-93 | a bucket key is present iff a file of that class was listed; its list is those files in order |
| FSUtils.ClassifiedKeys | lib/utils/FSUtils.ts:82-97 | the only keys are `directories`, `image`, `video` and `file` |
| FSUtils.NamesOfClassOnlyClasses | lib/utils/FSUtils.ts:91-93 | only the three classes ever collect files |
| FSUtils.ClassifiedCount | lib/utils/FSUtils.ts:86-95 | every entry lands in exactly one list, so the lengths add up to the listing's |
| FSUtils.PrefixedPaths | lib/utils/FSUtils.ts:75-80 | one result per glob match |
| FSUtils.PrefixedPathsExactly | lib/utils/FSUtils.ts:77-79 | one result per match, in match order, none with a backslash |
| FSUtils.PrefixedPathBelow | lib/utils/FSUtils.ts:78 | a match `rest` segments below the root is reported `rest` segments below `dirPrefix` |
| FSUtils.ReplaceAllAbsent | lib/utils/FSUtils.ts:78 | a path without backslashes is unchanged by the replace |
| FSUtils.ClearCachePatternOf | lib/utils/FSUtils.ts:160-163 | the glob is `cache + dir + "/**/" + <base> + ".*"`, by plain concatenation |
| FSUtils.ClearCache | lib/utils/FSUtils.ts:158-171 | afterwards the files are the old files minus exactly those the glob matches; directories are unchanged |
| FSUtils.UnlinkEach | lib/utils/FSUtils.ts:167-170 | unlinking every streamed entry removes exactly those entries from the files and leaves directories alone |
| FSUtils.ClearCacheNoMatch | lib/utils/FSUtils.ts:165-170 | zero matches is a no-op |
| FSUtils.ClearCacheIdempotent | lib/utils/FSUtils.ts:158-171 | clearing twice is clearing once |
| FSUtils.RemoveSpec | lib/utils/FSUtils.ts:147-156 | removal fails iff the path does not exist, with the `stat` error; it only ever takes paths away |
| FSUtils.Remove | lib/utils/FSUtils.ts:147-156 | the disk changes as `RemoveSpec` says; a missing path fails with the `stat` error and changes nothing |
| FSUtils.RemoveOnlyTouchesTarget | lib/utils/FSUtils.ts:147-156 | no path other than the target appears or disappears |
| FSUtils.RemoveKeepsNonEmptyDirectory | lib/utils/FSUtils.ts:148-152 | a directory with something below it is kept as it is |
| FSUtils.RemoveKeepsConsistent | lib/utils/FSUtils.ts:147-156 | no path is ever both a file and a directory |
| FSUtils.RemoveImageSpec | lib/utils/FSUtils.ts:173-185 | fails iff the image path does not exist; only takes paths away; without an unlink it is exactly `remove` |
| FSUtils.RemoveImage | lib/utils/FSUtils.ts:173-185 | the disk changes as `RemoveImageSpec` says |
| Gateway.WebPGateway.End | lib/engine/routeinjector/images/GalleryInjector.ts:176-182 | rewrite the URL unless an error is reported; hand on exactly once |
| Gateway.WebPGateway.HandleRequest | lib/engine/routeinjector/images/GalleryInjector.ts:174-242 | the URL, the disk and the job started follow the decision procedure; `next` is called exactly once |
| Gateway.Decide | lib/engine/routeinjector/images/GalleryInjector.ts:186-229 | only gallery requests from WebP clients get past; a miss reads an existing source and writes a key that does not exist yet |
| Gateway.UntouchedExactly | lib/engine/routeinjector/images/GalleryInjector.ts:174-242 | URL and disk both stay as they were iff the request is outside the gallery, its source is missing, the client refuses WebP, it hits with a URL already ending in `.webp`, or it misses and nothing is written |
| Gateway.HitRewritesOnly | lib/engine/routeinjector/images/GalleryInjector.ts:225-229 | a hit rewrites the URL to `.webp` and writes nothing |
| Gateway.SecondRequestHits | lib/engine/routeinjector/images/GalleryInjector.ts:203-229 | after a written miss, the same request is a hit |
| Gateway.FailedMissRetries | lib/engine/routeinjector/images/GalleryInjector.ts:205-241 | after a failed miss, the same request misses again with the same job |
| Gateway.DirectoriesShareDerivative | lib/engine/routeinjector/images/GalleryInjector.ts:189-205 | same file and size under another directory is a hit on the first request's derivative |
| Gateway.RepeatRequest | lib/engine/routeinjector/images/GalleryInjector.ts:174-242 | two equal requests, the first a miss whose derivative is written: the first starts the job the decision procedure chose, the second starts none; both URLs become the rewrite, and the disk gains exactly the derivative |
| Gateway.FileExistsCheck | lib/engine/routeinjector/images/GalleryInjector.ts:262-270 | the check passes iff the joined path exists, and hands on an existing path; otherwise the error is `<path> not found` |
| Gateway.CheckedPathUnderGallery | lib/engine/routeinjector/images/GalleryInjector.ts:264 | for a requested path with no `..` segment, a checked path is the gallery root's segments followed by the requested ones |
| Gateway.DeleteSpec | lib/engine/routeinjector/images/GalleryInjector.ts:251-259 | deletion succeeds iff the existence check passes, fails with `<path> not found` otherwise, and only ever takes paths away |
| Gateway.DeleteImage | lib/engine/routeinjector/images/GalleryInjector.ts:251-259 | the disk changes as `DeleteSpec` says; the reply is `<path> has been removed` |
| Gateway.DeleteTouchesOnlyTarget | lib/engine/routeinjector/images/GalleryInjector.ts:252-253 | once checked, deletion succeeds and touches no other path, so no derivative is cleared |
| Gateway.DeleteReportsKeptDirectory | lib/engine/routeinjector/images/GalleryInjector.ts:251-259 | a non-empty directory is reported removed and kept |
| Gateway.DeletedSourcePassesThrough | lib/engine/routeinjector/images/GalleryInjector.ts:189-192 | after deleting a top-level source, its requests pass through; other files stay |
| Invalidation.TopLevelPattern | lib/utils/FSUtils.ts:160-163 | the glob of `/name` is the cache's segments, then `**`, then `<base>.*` |
| Invalidation.RemovalReachesRequest | lib/utils/FSUtils.ts:163-165 | for a cache root and name free of glob syntax, that glob reaches every request key whose last segment `<base>.*` matches |
| Invalidation.TopLevelRemovalReachesDerivative | lib/utils/FSUtils.ts:160-165 | for a cache root and name free of glob syntax, removing a top-level image reaches its derivative for every directory and size |
| Invalidation.TopLevelRemovalClears | lib/utils/FSUtils.ts:173-185 | for a cache root and name free of glob syntax, after `removeImage` of a top-level file none of its derivatives remains |
| Invalidation.SubdirectoryRemovalReach | lib/utils/FSUtils.ts:160-165 | for a cache root, `sub` and name free of glob syntax, removing `/sub/name` reaches a derivative iff the width was truthy and the size segment is literally `sub` |
| Invalidation.RemovalOverReaches | lib/utils/FSUtils.ts:161-163 | for a cache root and stem free of glob syntax, removing `/stem.png` also clears the derivatives of `stem.more.png` |
| Invalidation.ExtensionlessSourceLeavesDerivative | lib/utils/FSUtils.ts:161-163 | for a cache root and name free of glob syntax, a source without extension gets the key `.webp`, which its glob `<name>.*` misses |

## Left out

- I/O is abstracted to a snapshot of the disk: `fs.exists`, `readdirSync`, `statSync`, `unlink`, `rmdir`, `mkdirp` and `mime.lookup`. Listings, MIME types and glob-match order are inputs. An entry whose `statSync` throws (a dangling symlink, say) aborts the whole listing in the program (lib/utils/FSUtils.ts:22, :72). The model instead gives it the kind `Other`, and the listings leave it out.
- sharp's pixel work is left out. Only the chosen resize variant and the generator's outcome are modelled (written, error reported, or thrown), and the outcome is an input. A size with a negative side, such as `-5x10`, is truthy, so the model chooses a resize to that box. sharp throws on a non-positive dimension, so in the program only `Threw` can follow, but the model leaves every outcome open.
- Spawning `optipng`/`jpegoptim` over `child.exec` and logging their output is left out: only the command string is modelled.
- imgr serving, multer storage and route registration are left out, as are the authentication and role middleware, `loadSecurityModule` and `Logger`. These are foreign libraries or wiring.
- The upload route's `createDirectory` call (mkdirp) is left out. Only the response-URL loop is modelled.
- `loadConfiguration` and the injector's constructor are not modelled as such. Their values form the constant `Gateway.Config`.
- Concurrency is left out: two concurrent misses for one key, and the un-awaited `clearCache` inside `removeImage`. In the model `clearCache` completes before `removeImage` returns.
- NodePath.Join: `..` segments are kept, not resolved, and the disk's paths are assumed normalised. A trailing `/`, which Node keeps, is dropped.
- Gateway.FileExistsCheck: because the trailing `/` is dropped, a requested path ending in `/` is accepted when it names a file; Node's `existsSync` would refuse it.
- Gateway.CheckedPathUnderGallery: stated only for requested paths without a `..` segment. For a `..` path the model's join keeps the segment, while Node resolves it and can reach outside the gallery root. The model does not capture that escape.
- NodePath.Relative does not resolve paths against the working directory.
- NodePath.GlobMatch models only `*` within a segment and `**` as a whole segment. It matches names and directories that start with `.`, as fast-glob does with the `dot: true` option the source passes. fast-glob's other syntax (brackets, groups, braces, `?`, `!`, extglobs, `\` escapes) is left out.
- Invalidation.RemovalReachesRequest, TopLevelRemovalReachesDerivative, TopLevelRemovalClears, SubdirectoryRemovalReach, RemovalOverReaches and ExtensionlessSourceLeavesDerivative: stated only for a cache root and names free of that syntax (`NodePath.GlobFree`). For other names the program's glob can miss the derivative or reach other files, and the model does not say which.
- Gateway.WebPGateway.HandleRequest: the only exception modelled is one thrown while starting the generator (the `Threw` outcome). Others the middleware would catch are left out, for example a missing `Accept` header object.
- JsNumber.ParseFloat computes exact reals: IEEE rounding and values beyond 2^53 are left out.
- `fs.rmdir` is called without a callback. It is modelled as removing the empty directory; the throw this causes on newer Node versions is left out.
- `getModulePath`, `loadFile`, `exists`, `isFile`, `sep` and `createDirectory` are thin wrappers over Node and are left out.
- `getClassifiedFileMap`'s JSON response and the list route around it are left out.
- lib/utils/ModelUtils.ts and lib/utils/OperationType.ts are not part of this model.
