/**
 * The WebP gateway: the middleware in front of image serving that, for a
 * gallery URL whose source exists and whose client accepts WebP, points the
 * request at a cached `.webp` derivative, producing it first when it is
 * missing. Also the gallery's check that a requested path exists, and its
 * delete route.
 */
module Gateway {
  import opened Wrappers
  import opened JsString
  import NodePath
  import opened Negotiation
  import opened RequestShape
  import opened FileSystem
  import FSUtils

  /** The configuration the gateway and the gallery routes read. */
  datatype Config = Config(
    prefix: string,       // the routes prefix
    endpoint: string,     // the gallery endpoint
    imagesPath: string,   // where source images live
    cache: string,        // where derivatives are written
    galleryPath: string)  // the gallery's own root, for its routes

  /** A request: its URL, which the gateway may rewrite, and its headers. */
  class Request {
    var url: string
    const headers: Headers

    constructor (url: string, headers: Headers)
      ensures this.url == url && this.headers == headers
    {
      this.url := url;
      this.headers := headers;
    }
  }

  /** A derivative to produce: from the source, to the cache path, by the chosen variant. */
  datatype Job = Job(source: string, output: string, variant: Variant)

  /** What the gateway decides for a request. */
  datatype Decision = PassThrough | Hit | Miss(job: Job)

  /** How producing a derivative ended: written, reported an error to its callback, or threw. */
  datatype GeneratorOutcome = Written | ReportedError | Threw

  /** `path.join(images.path, fileName)`: the source is looked up by the URL's last segment only. */
  function SourcePath(cfg: Config, url: string): string {
    NodePath.Join([cfg.imagesPath, FileName(url)])
  }

  /** The gateway's decision procedure, in the order the middleware tests. */
  function Decide(cfg: Config, url: string, headers: Headers, s: Snapshot): (d: Decision)
    ensures d != PassThrough ==> StartsWith(url, cfg.prefix + cfg.endpoint) && SupportsWebP(headers)
    ensures d.Miss? ==> Exists(s, d.job.source) && !Exists(s, d.job.output)
  {
    if !StartsWith(url, cfg.prefix + cfg.endpoint) then PassThrough
    else
      var source := SourcePath(cfg, url);
      if !Exists(s, source) then PassThrough
      else if !SupportsWebP(headers) then PassThrough
      else
        var sh := ParseShape(url);
        var output := CacheKey(cfg.cache, sh);
        if Exists(s, output) then Hit else Miss(Job(source, output, VariantFor(sh)))
  }

  /** The URL handed on: rewritten on a hit, or on a miss whose derivative was written. */
  function ServedUrl(d: Decision, url: string, outcome: GeneratorOutcome): string {
    match d
    case PassThrough => url
    case Hit => RewriteUrl(url)
    case Miss(_) => if outcome == Written then RewriteUrl(url) else url
  }

  /** The file system afterwards: it gains the derivative only when one was written. */
  function AfterRequest(d: Decision, s: Snapshot, outcome: GeneratorOutcome): Snapshot {
    if d.Miss? && outcome == Written then Snapshot(s.files + {d.job.output}, s.dirs) else s
  }

  /** The middleware, over the disk it reads and writes. */
  class WebPGateway {
    const config: Config
    const disk: Disk

    constructor (config: Config, disk: Disk)
      ensures this.config == config && this.disk == disk
    {
      this.config := config;
      this.disk := disk;
    }

    /** The callback given to the generator: rewrite unless it reports an error, then hand on. */
    method End(req: Request, err: bool) returns (nextCalls: nat)
      modifies req
      ensures req.url == if err then old(req.url) else RewriteUrl(old(req.url))
      ensures nextCalls == 1
    {
      if !err {
        req.url := StripLastExt(req.url) + ".webp";
      }
      nextCalls := 1;
    }

    /**
     * One request through the middleware. `outcome` stands for how the
     * generator ends when it is started; the method returns the job started,
     * if any, and how many times the request was handed on.
     */
    method HandleRequest(req: Request, outcome: GeneratorOutcome) returns (job: Option<Job>, nextCalls: nat)
      modifies req, disk
      ensures var d := Decide(config, old(req.url), req.headers, old(disk.State()));
        req.url == ServedUrl(d, old(req.url), outcome)
        && disk.State() == AfterRequest(d, old(disk.State()), outcome)
        && job == (if d.Miss? then Some(d.job) else None)
      ensures nextCalls == 1
    {
      ghost var d := Decide(config, req.url, req.headers, disk.State());
      job := None;
      if StartsWith(req.url, config.prefix + config.endpoint) {
        var fileName := FileName(req.url);
        var fileAbs := NodePath.Join([config.imagesPath, fileName]);
        assert fileAbs == SourcePath(config, req.url);
        if fileAbs in disk.files || fileAbs in disk.dirs {
          if SupportsWebP(req.headers) {
            var sh := ParseShape(req.url);
            var outputFile := CacheKey(config.cache, sh);
            if !(outputFile in disk.files || outputFile in disk.dirs) {
              job := Some(Job(fileAbs, outputFile, VariantFor(sh)));
              assert d == Miss(job.value);
              match outcome
              case Written =>
                disk.WriteFile(outputFile);
                nextCalls := End(req, false);
              case ReportedError =>
                nextCalls := End(req, true);
              case Threw =>
                nextCalls := 1;
            } else {
              assert d == Hit;
              req.url := StripLastExt(req.url) + ".webp";
              nextCalls := 1;
            }
          } else {
            assert d == PassThrough;
            nextCalls := 1;
          }
        } else {
          assert d == PassThrough;
          nextCalls := 1;
        }
      } else {
        assert d == PassThrough;
        nextCalls := 1;
      }
    }
  }

  // ---------------------------------------------------------------------
  // Properties of the decision procedure

  /**
   * What a caller can see of one request: the URL and the disk both stay as
   * they were exactly when the URL is outside the gallery, the source named by
   * its last segment is missing, the client does not negotiate WebP, the
   * derivative exists and the URL already ends in `.webp`, or the derivative
   * is missing and the generator does not write it.
   */
  lemma {:induction false} UntouchedExactly(cfg: Config, url: string, headers: Headers, s: Snapshot, outcome: GeneratorOutcome)
    ensures var d := Decide(cfg, url, headers, s);
      (ServedUrl(d, url, outcome) == url && AfterRequest(d, s, outcome) == s)
      <==> (!StartsWith(url, cfg.prefix + cfg.endpoint)
            || !Exists(s, SourcePath(cfg, url))
            || !SupportsWebP(headers)
            || (Exists(s, CacheKey(cfg.cache, ParseShape(url))) && EndsWith(url, ".webp"))
            || (!Exists(s, CacheKey(cfg.cache, ParseShape(url))) && outcome != Written))
  {
    var d := Decide(cfg, url, headers, s);
    RewriteFixedExactly(url);
    if d.Miss? && outcome == Written {
      assert d.job.output in AfterRequest(d, s, outcome).files && d.job.output !in s.files;
    }
  }

  /** A cache hit rewrites the URL to the `.webp` file and generates nothing. */
  lemma {:induction false} HitRewritesOnly(cfg: Config, url: string, headers: Headers, s: Snapshot, outcome: GeneratorOutcome)
    requires Decide(cfg, url, headers, s) == Hit
    ensures ServedUrl(Hit, url, outcome) == RewriteUrl(url)
    ensures EndsWith(ServedUrl(Hit, url, outcome), ".webp")
    ensures AfterRequest(Hit, s, outcome) == s
    ensures Exists(s, CacheKey(cfg.cache, ParseShape(url)))
  {
  }

  /** After a successful miss, the same request is a hit. */
  lemma {:induction false} SecondRequestHits(cfg: Config, url: string, headers: Headers, s: Snapshot)
    requires Decide(cfg, url, headers, s).Miss?
    ensures Decide(cfg, url, headers, AfterRequest(Decide(cfg, url, headers, s), s, Written)) == Hit
  {
  }

  /** After a failed miss, the same request misses again with the same job. */
  lemma {:induction false} FailedMissRetries(cfg: Config, url: string, headers: Headers, s: Snapshot, outcome: GeneratorOutcome)
    requires Decide(cfg, url, headers, s).Miss? && outcome != Written
    ensures Decide(cfg, url, headers, AfterRequest(Decide(cfg, url, headers, s), s, outcome))
         == Decide(cfg, url, headers, s)
  {
  }

  /**
   * Two requests for the same file name and size under different gallery
   * directories share the source and the derivative: the second is a hit
   * that serves the first one's image.
   */
  lemma {:induction false} DirectoriesShareDerivative(cfg: Config, dir1: string, dir2: string, size: string, file: string,
                                   headers: Headers, s: Snapshot)
    requires '/' !in size && '/' !in file
    requires Decide(cfg, dir1 + "/" + size + "/" + file, headers, s).Miss?
    requires StartsWith(dir2 + "/" + size + "/" + file, cfg.prefix + cfg.endpoint)
    ensures var after := AfterRequest(Decide(cfg, dir1 + "/" + size + "/" + file, headers, s), s, Written);
      Decide(cfg, dir2 + "/" + size + "/" + file, headers, after) == Hit
  {
    ShapeOfUrl(dir1, size, file);
    ShapeOfUrl(dir2, size, file);
    KeyIgnoresDirectory(cfg.cache, dir1, dir2, size, file);
  }

  /**
   * Two requests in a row: a written miss that starts the job and leaves the
   * derivative on disk, then a hit that starts no job and writes nothing more;
   * both are served the rewritten URL.
   */
  method RepeatRequest(g: WebPGateway, first: Request, second: Request) returns (job1: Option<Job>, job2: Option<Job>)
    requires first != second && first.url == second.url && first.headers == second.headers
    requires Decide(g.config, first.url, first.headers, g.disk.State()).Miss?
    modifies first, second, g.disk
    ensures first.url == second.url == RewriteUrl(old(first.url))
    ensures job1 == Some(Decide(g.config, old(first.url), first.headers, old(g.disk.State())).job)
    ensures job2 == None
    ensures g.disk.State() == Snapshot(old(g.disk.State()).files + {CacheKey(g.config.cache, ParseShape(old(first.url)))},
                                       old(g.disk.State()).dirs)
  {
    var calls1, calls2;
    job1, calls1 := g.HandleRequest(first, Written);
    SecondRequestHits(g.config, old(first.url), first.headers, old(g.disk.State()));
    job2, calls2 := g.HandleRequest(second, Written);
  }

  // ---------------------------------------------------------------------
  // The gallery routes

  /** The not-found error, or the joined path the route goes on with. */
  function FileExistsCheck(galleryPath: string, reqPath: string, s: Snapshot): (r: Result<string, string>)
    ensures r.Ok? <==> Exists(s, NodePath.Join([galleryPath, reqPath]))
    ensures r.Ok? ==> Exists(s, r.value)
    ensures r.Err? ==> r.error == reqPath + " not found"
  {
    var path := NodePath.Join([galleryPath, reqPath]);
    if !Exists(s, path) then Err(reqPath + " not found") else Ok(path)
  }

  /**
   * A path the check lets through has the gallery root's segments followed by
   * the requested ones. This is true of Node only when the request has no `..`
   * segment: `path.join` resolves `..`, so such a request can leave the root.
   */
  lemma {:induction false} CheckedPathUnderGallery(galleryPath: string, reqPath: string, s: Snapshot)
    requires galleryPath != ""
    requires ".." !in NodePath.Segments(reqPath)
    requires FileExistsCheck(galleryPath, reqPath, s).Ok?
    ensures var p := FileExistsCheck(galleryPath, reqPath, s).value;
      NodePath.Segments(p) == NodePath.Segments(galleryPath) + NodePath.Segments(reqPath)
      && NodePath.IsAbsolute(p) == NodePath.IsAbsolute(galleryPath)
  {
    var parts := [galleryPath, reqPath];
    NodePath.JoinSegments(parts);
    NodePath.JoinAbsolute(parts);
    assert parts[1..] == [reqPath] && [reqPath][1..] == [];
    assert NodePath.AllSegments([reqPath]) == NodePath.Segments(reqPath) + [];
  }

  /** The delete route: the check, then `FSUtils.remove`, then the message. */
  function DeleteSpec(galleryPath: string, reqPath: string, s: Snapshot): (r: Result<(Snapshot, string), string>)
    ensures r.Ok? <==> FileExistsCheck(galleryPath, reqPath, s).Ok?
    ensures r.Err? ==> r.error == reqPath + " not found"
    ensures r.Ok? ==> r.value.0.files <= s.files && r.value.0.dirs <= s.dirs
  {
    match FileExistsCheck(galleryPath, reqPath, s)
    case Err(e) => Err(e)
    case Ok(path) =>
      match FSUtils.RemoveSpec(s, path)
      case Err(e) => Err(e)
      case Ok((after, _)) => Ok((after, path + " has been removed"))
  }

  /** `DELETE <endpoint>/<path>`. */
  method DeleteImage(disk: Disk, galleryPath: string, reqPath: string) returns (r: Result<string, string>)
    modifies disk
    ensures var spec := DeleteSpec(galleryPath, reqPath, old(disk.State()));
      (spec.Ok? ==> r == Ok(spec.value.1) && disk.State() == spec.value.0)
      && (spec.Err? ==> r == Err(spec.error) && disk.State() == old(disk.State()))
  {
    var check := FileExistsCheck(galleryPath, reqPath, disk.State());
    if check.Err? {
      return Err(check.error);
    }
    var path := check.value;
    var removal := FSUtils.Remove(disk, path);
    if removal.Err? {
      // `remove` fails only for a missing path, and the check has just seen it exist.
      assert false;
    }
    return Ok(path + " has been removed");
  }

  /**
   * The delete route never fails once the check passes, and it removes at most
   * the checked path: it calls `remove`, not `removeImage`, so no cached
   * derivative is cleared.
   */
  lemma {:induction false} DeleteTouchesOnlyTarget(galleryPath: string, reqPath: string, s: Snapshot, q: string)
    requires FileExistsCheck(galleryPath, reqPath, s).Ok?
    ensures DeleteSpec(galleryPath, reqPath, s).Ok?
    ensures q != NodePath.Join([galleryPath, reqPath]) ==>
      (Exists(DeleteSpec(galleryPath, reqPath, s).value.0, q) <==> Exists(s, q))
  {
    var path := NodePath.Join([galleryPath, reqPath]);
    FSUtils.RemoveOnlyTouchesTarget(s, path, q);
  }

  /** A non-empty directory is reported removed although it is kept. */
  lemma {:induction false} DeleteReportsKeptDirectory(galleryPath: string, reqPath: string, s: Snapshot, inside: string)
    requires NodePath.Join([galleryPath, reqPath]) in s.dirs
    requires inside in s.files + s.dirs && Below(inside, NodePath.Join([galleryPath, reqPath]))
    ensures DeleteSpec(galleryPath, reqPath, s)
         == Ok((s, NodePath.Join([galleryPath, reqPath]) + " has been removed"))
  {
    FSUtils.RemoveKeepsNonEmptyDirectory(s, NodePath.Join([galleryPath, reqPath]), inside);
  }

  /**
   * Once the gallery deletes a source the gateway looks up (the gallery and
   * image roots coincide and the file sits at the top), later requests for it
   * pass through, even though its derivatives remain in the cache.
   */
  lemma {:induction false} DeletedSourcePassesThrough(cfg: Config, url: string, headers: Headers, s: Snapshot, reqPath: string)
    requires Consistent(s)
    requires NodePath.Join([cfg.galleryPath, reqPath]) == SourcePath(cfg, url)
    requires SourcePath(cfg, url) in s.files
    ensures DeleteSpec(cfg.galleryPath, reqPath, s).Ok?
    ensures Decide(cfg, url, headers, DeleteSpec(cfg.galleryPath, reqPath, s).value.0) == PassThrough
    ensures forall q :: q in s.files && q != SourcePath(cfg, url) ==> q in DeleteSpec(cfg.galleryPath, reqPath, s).value.0.files
  {
  }
}
