/**
 * The gallery's file-system helpers: classifying files by MIME type, listing
 * and bucketing a directory, prefixing glob results, and the removal rules —
 * a directory only when it is empty, a file always, and for an image also
 * every cached derivative the invalidation glob reaches.
 */
module FSUtils {
  import opened Wrappers
  import opened JsString
  import NodePath
  import opened FileSystem

  // ---------------------------------------------------------------------
  // Classification

  /** The bucket of a file: the MIME type's part before the first `/` if that is `image` or `video`, else `file`. */
  function ClassifyFile(mime: string): (c: string)
    ensures c == "image" || c == "video" || c == "file"
  {
    var primitive := Split(mime, '/')[0];
    if primitive == "image" || primitive == "video" then primitive else "file"
  }

  /** A MIME type `t/sub` is classified by `t` alone. */
  lemma {:induction false} ClassOfMime(t: string, sub: string)
    requires '/' !in t
    ensures ClassifyFile(t + "/" + sub) == if t == "image" || t == "video" then t else "file"
  {
    assert t + "/" + sub == t + ['/'] + sub;
    SplitAround(t, sub, '/');
    SplitNoSeparator(t, '/');
  }

  /** `image/...` is an image and `video/...` a video; `application/...` (the unknown-type default) is a file. */
  lemma {:induction false} ClassExamples(sub: string)
    ensures ClassifyFile("image" + "/" + sub) == "image"
    ensures ClassifyFile("video" + "/" + sub) == "video"
    ensures ClassifyFile("application" + "/" + sub) == "file"
  {
    ClassOfMime("image", sub);
    ClassOfMime("video", sub);
    ClassOfMime("application", sub);
  }

  // ---------------------------------------------------------------------
  // Listings

  /** What `statSync` reports of an entry. */
  datatype EntryKind = Directory | RegularFile | Other

  /** A name `readdirSync` lists, its kind, and the MIME type looked up for its path. */
  datatype DirEntry = DirEntry(name: string, kind: EntryKind, mime: string)

  /** The names of the entries of kind `k`, in listing order. */
  function NamesOfKind(es: seq<DirEntry>, k: EntryKind): seq<string>
    decreases |es|
  {
    if es == [] then []
    else NamesOfKind(es[..|es| - 1], k) + (if es[|es| - 1].kind == k then [es[|es| - 1].name] else [])
  }

  /** The names of the entries that are not directories and fall into bucket `c`, in listing order. */
  function NamesOfClass(es: seq<DirEntry>, c: string): seq<string>
    decreases |es|
  {
    if es == [] then []
    else
      var e := es[|es| - 1];
      NamesOfClass(es[..|es| - 1], c) + (if e.kind != Directory && ClassifyFile(e.mime) == c then [e.name] else [])
  }

  /**
   * `getDirectories(srcpath)`: nothing for a path that does not exist, else
   * the directory entries of the listing; a listing that fails is an error.
   */
  function GetDirectories(present: bool, listing: Result<seq<DirEntry>, string>): (r: Result<seq<string>, string>)
    ensures !present ==> r == Ok([])
    ensures present && listing.Err? ==> r == Err(listing.error)
    ensures present && listing.Ok? ==> r.Ok? && forall n :: n in r.value <==>
      exists i :: 0 <= i < |listing.value| && listing.value[i].kind == Directory && listing.value[i].name == n
  {
    if !present then Ok([])
    else match listing
      case Ok(es) => NamesOfKindAll(es, Directory); Ok(NamesOfKind(es, Directory))
      case Err(e) => Err(e)
  }

  /** `getFiles(srcpath)`: the regular-file entries; there is no existence check, so a failing listing is an error. */
  function GetFiles(listing: Result<seq<DirEntry>, string>): (r: Result<seq<string>, string>)
    ensures listing.Err? ==> r == Err(listing.error)
    ensures listing.Ok? ==> r.Ok? && forall n :: n in r.value <==>
      exists i :: 0 <= i < |listing.value| && listing.value[i].kind == RegularFile && listing.value[i].name == n
  {
    match listing
    case Ok(es) => NamesOfKindAll(es, RegularFile); Ok(NamesOfKind(es, RegularFile))
    case Err(e) => Err(e)
  }

  /** Filtering keeps listing order: the names of a concatenation are the names of its parts, concatenated. */
  lemma {:induction false} NamesOfKindAppend(a: seq<DirEntry>, b: seq<DirEntry>, k: EntryKind)
    ensures NamesOfKind(a + b, k) == NamesOfKind(a, k) + NamesOfKind(b, k)
    decreases |b|
  {
    if b == [] {
      assert a + b == a;
    } else {
      assert (a + b)[..|a + b| - 1] == a + b[..|b| - 1];
      NamesOfKindAppend(a, b[..|b| - 1], k);
    }
  }

  /** A name is listed exactly when some entry of that kind has it. */
  lemma {:induction false} NamesOfKindMembers(es: seq<DirEntry>, k: EntryKind, n: string)
    ensures n in NamesOfKind(es, k) <==> exists i :: 0 <= i < |es| && es[i].kind == k && es[i].name == n
    decreases |es|
  {
    if es != [] {
      var init := es[..|es| - 1];
      NamesOfKindMembers(init, k, n);
      assert forall i :: 0 <= i < |init| ==> init[i] == es[i];
      if n in NamesOfKind(es, k) && n !in NamesOfKind(init, k) {
        assert es[|es| - 1].kind == k && es[|es| - 1].name == n;
      }
    }
  }

  lemma {:induction false} NamesOfKindAll(es: seq<DirEntry>, k: EntryKind)
    ensures forall n :: n in NamesOfKind(es, k) <==> exists i :: 0 <= i < |es| && es[i].kind == k && es[i].name == n
  {
    forall n ensures n in NamesOfKind(es, k) <==> exists i :: 0 <= i < |es| && es[i].kind == k && es[i].name == n {
      NamesOfKindMembers(es, k, n);
    }
  }

  /** Every entry is a directory, a regular file, or something else. */
  lemma {:induction false} KindsPartition(es: seq<DirEntry>)
    ensures |NamesOfKind(es, Directory)| + |NamesOfKind(es, RegularFile)| + |NamesOfKind(es, Other)| == |es|
    decreases |es|
  {
    if es != [] {
      KindsPartition(es[..|es| - 1]);
    }
  }

  // ---------------------------------------------------------------------
  // The classified file map

  type FileMap = map<string, seq<string>>

  /** The list under `key`, or none. */
  function Bucket(m: FileMap, key: string): seq<string> {
    if key in m then m[key] else []
  }

  /** One step of the listing: a directory joins `directories`, anything else its class bucket, created on first use. */
  function AddEntry(m: FileMap, e: DirEntry): FileMap {
    if e.kind == Directory then m["directories" := Bucket(m, "directories") + [e.name]]
    else
      var c := ClassifyFile(e.mime);
      m[c := Bucket(m, c) + [e.name]]
  }

  /** The map `getClassifiedFileMap` returns for a listing. */
  function ClassifiedMap(es: seq<DirEntry>): (m: FileMap)
    ensures "directories" in m
    decreases |es|
  {
    if es == [] then map["directories" := []]
    else AddEntry(ClassifiedMap(es[..|es| - 1]), es[|es| - 1])
  }

  /** `getClassifiedFileMap(path)`: the listing's entries bucketed in one pass. */
  method GetClassifiedFileMap(listing: Result<seq<DirEntry>, string>) returns (r: Result<FileMap, string>)
    ensures listing.Ok? ==> r == Ok(ClassifiedMap(listing.value))
    ensures listing.Err? ==> r == Err(listing.error)
  {
    if listing.Err? {
      return Err(listing.error);
    }
    var es := listing.value;
    var filemap: FileMap := map["directories" := []];
    for i := 0 to |es|
      invariant filemap == ClassifiedMap(es[..i])
    {
      assert es[..i + 1][..i] == es[..i];
      var file := es[i];
      if file.kind == Directory {
        filemap := filemap["directories" := filemap["directories"] + [file.name]];
      } else {
        var bucket := ClassifyFile(file.mime);
        if bucket !in filemap {
          filemap := filemap[bucket := []];
        }
        filemap := filemap[bucket := filemap[bucket] + [file.name]];
      }
      assert filemap == AddEntry(ClassifiedMap(es[..i]), es[i]);
    }
    assert es[..|es|] == es;
    return Ok(filemap);
  }

  /** `directories` lists exactly the directory entries, in listing order. */
  lemma {:induction false} ClassifiedDirectories(es: seq<DirEntry>)
    ensures "directories" in ClassifiedMap(es)
    ensures ClassifiedMap(es)["directories"] == NamesOfKind(es, Directory)
    decreases |es|
  {
    if es != [] {
      ClassifiedDirectories(es[..|es| - 1]);
    }
  }

  /**
   * Any other key is present exactly when some non-directory entry falls into
   * that bucket, and then lists exactly those entries, in listing order.
   */
  lemma {:induction false} ClassifiedBucket(es: seq<DirEntry>, c: string)
    requires c != "directories"
    ensures c in ClassifiedMap(es) <==> NamesOfClass(es, c) != []
    ensures Bucket(ClassifiedMap(es), c) == NamesOfClass(es, c)
    decreases |es|
  {
    if es != [] {
      ClassifiedBucket(es[..|es| - 1], c);
    }
  }

  /** Only `directories`, `image`, `video` and `file` can be keys. */
  lemma {:induction false} ClassifiedKeys(es: seq<DirEntry>, key: string)
    requires key in ClassifiedMap(es)
    ensures key == "directories" || key == "image" || key == "video" || key == "file"
  {
    if key != "directories" {
      ClassifiedBucket(es, key);
      NamesOfClassOnlyClasses(es, key);
    }
  }

  lemma {:induction false} NamesOfClassOnlyClasses(es: seq<DirEntry>, c: string)
    requires NamesOfClass(es, c) != []
    ensures c == "image" || c == "video" || c == "file"
    decreases |es|
  {
    if es != [] && NamesOfClass(es[..|es| - 1], c) != [] {
      NamesOfClassOnlyClasses(es[..|es| - 1], c);
    }
  }

  /** Every entry lands in exactly one list: the lengths add up to the listing's. */
  lemma {:induction false} ClassifiedCount(es: seq<DirEntry>)
    ensures |NamesOfKind(es, Directory)| + |NamesOfClass(es, "image")| + |NamesOfClass(es, "video")|
            + |NamesOfClass(es, "file")| == |es|
    decreases |es|
  {
    if es != [] {
      ClassifiedCount(es[..|es| - 1]);
    }
  }

  // ---------------------------------------------------------------------
  // Recursive listing by type

  /** One glob match as `getAllFilesRecursivelyByType` reports it: under `dirPrefix`, relative to `root`, with `/` separators. */
  function PrefixedPath(root: string, dirPrefix: string, file: string): string {
    ReplaceAll(NodePath.Join([dirPrefix, NodePath.Relative(root, file)]), '\\', '/')
  }

  /** The glob matches, in match order, mapped by `PrefixedPath`. */
  function PrefixedPaths(root: string, matches: seq<string>, dirPrefix: string): (r: seq<string>)
    ensures |r| == |matches|
    decreases |matches|
  {
    if matches == [] then []
    else [PrefixedPath(root, dirPrefix, matches[0])] + PrefixedPaths(root, matches[1..], dirPrefix)
  }

  /** One result per match, in match order, and none with a backslash. */
  lemma {:induction false} PrefixedPathsExactly(root: string, matches: seq<string>, dirPrefix: string)
    ensures |PrefixedPaths(root, matches, dirPrefix)| == |matches|
    ensures forall i :: 0 <= i < |matches| ==>
      PrefixedPaths(root, matches, dirPrefix)[i] == PrefixedPath(root, dirPrefix, matches[i])
      && '\\' !in PrefixedPaths(root, matches, dirPrefix)[i]
    decreases |matches|
  {
    if matches != [] {
      var all := PrefixedPaths(root, matches, dirPrefix);
      var rest := PrefixedPaths(root, matches[1..], dirPrefix);
      assert all == [PrefixedPath(root, dirPrefix, matches[0])] + rest;
      PrefixedPathsExactly(root, matches[1..], dirPrefix);
      forall i | 0 <= i < |matches|
        ensures all[i] == PrefixedPath(root, dirPrefix, matches[i]) && '\\' !in all[i]
      {
        if i > 0 {
          assert all[i] == rest[i - 1] && matches[i] == matches[1..][i - 1];
        }
      }
    }
  }

  lemma {:induction false} ReplaceAllAbsent(s: string, x: char, y: char)
    requires x !in s
    ensures ReplaceAll(s, x, y) == s
    decreases |s|
  {
    if s != [] {
      ReplaceAllAbsent(s[1..], x, y);
      assert [s[0]] + s[1..] == s;
    }
  }

  /** A match `rest` segments below the root is reported `rest` segments below `dirPrefix`. */
  lemma {:induction false} PrefixedPathBelow(root: string, dirPrefix: string, file: string, rest: seq<string>)
    requires NodePath.Segments(file) == NodePath.Segments(root) + rest
    requires '\\' !in dirPrefix && '\\' !in file
    ensures NodePath.Segments(PrefixedPath(root, dirPrefix, file)) == NodePath.Segments(dirPrefix) + rest
  {
    NodePath.RelativeBelow(root, file, rest);
    RestIsPlain(root, file, rest);
    var parts := [dirPrefix, JoinWith(rest, '/')];
    JoinedUnderPrefix(dirPrefix, rest);
    NodePath.JoinWithAvoids(rest, '/', '\\');
    NodePath.JoinAvoids(parts, '\\');
    ReplaceAllAbsent(NodePath.Join(parts), '\\', '/');
  }

  /** The segments left after the root's are plain and, like the path, free of backslashes. */
  lemma {:induction false} RestIsPlain(root: string, file: string, rest: seq<string>)
    requires NodePath.Segments(file) == NodePath.Segments(root) + rest
    requires '\\' !in file
    ensures NodePath.Plain(rest) && NodePath.Avoids(rest, '\\')
  {
    var segs := NodePath.Segments(file);
    var k := |NodePath.Segments(root)|;
    assert rest == segs[k..];
    NodePath.SegmentsArePlain(file);
    NodePath.PlainSuffix(segs, k);
    NodePath.SegmentsAvoid(file, '\\');
    assert forall i :: 0 <= i < |rest| ==> rest[i] == segs[k + i];
  }

  /** Joining a prefix with plain segments appends those segments. */
  lemma {:induction false} JoinedUnderPrefix(dirPrefix: string, rest: seq<string>)
    requires NodePath.Plain(rest)
    ensures NodePath.Segments(NodePath.Join([dirPrefix, JoinWith(rest, '/')])) == NodePath.Segments(dirPrefix) + rest
  {
    var relative := JoinWith(rest, '/');
    NodePath.SegmentsOfJoinWith(rest);
    var parts := [dirPrefix, relative];
    NodePath.JoinSegments(parts);
    assert parts[1..] == [relative] && [relative][1..] == [];
    assert NodePath.AllSegments([relative]) == NodePath.Segments(relative) + [];
  }

  // ---------------------------------------------------------------------
  // Cache invalidation

  /** `cache + dirname(rel) + "/**/" + basename(rel, extname(rel)) + ".*"`, by plain concatenation. */
  function ClearCachePattern(cache: string, rel: string): string {
    cache + NodePath.DirName(rel) + "/**/" + NodePath.Stem(rel) + ".*"
  }

  /** The files the glob matches. */
  function CacheMatches(s: Snapshot, pattern: string): set<string> {
    set q | q in s.files && NodePath.GlobMatch(pattern, q)
  }

  /** The file system after `clearCache(cfg, rel)`: every matching file unlinked. */
  function ClearCacheSpec(s: Snapshot, cache: string, rel: string): Snapshot {
    Snapshot(s.files - CacheMatches(s, ClearCachePattern(cache, rel)), s.dirs)
  }

  /** `clearCache(cfg, rel)`: unlink the glob's matches one by one. */
  method ClearCache(disk: Disk, cache: string, rel: string)
    modifies disk
    ensures disk.State() == ClearCacheSpec(old(disk.State()), cache, rel)
  {
    var globPath := ClearCachePattern(cache, rel);
    var matches := CacheMatches(disk.State(), globPath);
    UnlinkEach(disk, matches);
  }

  /** The glob callback's loop: `fs.unlink` on every entry, nothing else changes. */
  method UnlinkEach(disk: Disk, entries: set<string>)
    modifies disk
    ensures disk.State() == Snapshot(old(disk.State()).files - entries, old(disk.State()).dirs)
  {
    var pending := entries;
    ghost var before := disk.State();
    while pending != {}
      invariant pending <= entries
      invariant disk.State() == Snapshot(before.files - (entries - pending), before.dirs)
      decreases |pending|
    {
      var entry :| entry in pending;
      disk.Unlink(entry);
      UnlinkOneMore(before.files, entries, pending, entry);
      pending := pending - {entry};
    }
    assert entries - pending == entries;
  }

  /** Unlinking one more pending entry extends the unlinked part by that entry. */
  lemma {:induction false} UnlinkOneMore(files: set<string>, all: set<string>, pending: set<string>, entry: string)
    requires entry in pending && pending <= all
    ensures files - (all - pending) - {entry} == files - (all - (pending - {entry}))
  {
  }

  /** With no match, clearing changes nothing. */
  lemma {:induction false} ClearCacheNoMatch(s: Snapshot, cache: string, rel: string)
    requires forall q :: q in s.files ==> !NodePath.GlobMatch(ClearCachePattern(cache, rel), q)
    ensures ClearCacheSpec(s, cache, rel) == s
  {
    assert CacheMatches(s, ClearCachePattern(cache, rel)) == {};
  }

  /** Clearing twice is clearing once. */
  lemma {:induction false} ClearCacheIdempotent(s: Snapshot, cache: string, rel: string)
    ensures ClearCacheSpec(ClearCacheSpec(s, cache, rel), cache, rel) == ClearCacheSpec(s, cache, rel)
  {
    var once := ClearCacheSpec(s, cache, rel);
    assert CacheMatches(once, ClearCachePattern(cache, rel)) == {};
  }

  /**
   * For `rel = dir/name` with an extension in `name`, the glob is
   * `cache + dir + "/**/" + <name without extension> + ".*"`; for a top-level
   * `rel = /name` the directory part is `/`.
   */
  lemma {:induction false} ClearCachePatternOf(cache: string, dir: string, name: string)
    requires name != "" && '/' !in name && name != ".."
    requires LastIndexOf(name, '.').Some? && LastIndexOf(name, '.').value > 0
    ensures dir != "" && dir[|dir| - 1] != '/' ==>
      ClearCachePattern(cache, dir + "/" + name) == cache + dir + "/**/" + StripLastExt(name) + ".*"
    ensures ClearCachePattern(cache, "/" + name) == cache + "/" + "/**/" + StripLastExt(name) + ".*"
  {
    var base := StripLastExt(name);
    if dir != "" && dir[|dir| - 1] != '/' {
      var rel := dir + "/" + name;
      assert ClearCachePattern(cache, rel) == cache + dir + "/**/" + base + ".*" by {
        NodePath.DirNameOfChild(dir, name);
        NodePath.StemOfChild(dir, name);
        PatternOfParts(cache, rel, dir, base);
      }
    }
    assert ClearCachePattern(cache, "/" + name) == cache + "/" + "/**/" + base + ".*" by {
      NodePath.DirNameOfTopLevel(name);
      assert "" + "/" + name == "/" + name;
      NodePath.StemOfChild("", name);
      PatternOfParts(cache, "/" + name, "/", base);
    }
  }

  lemma {:induction false} PatternOfParts(cache: string, rel: string, dir: string, base: string)
    requires NodePath.DirName(rel) == dir && NodePath.Stem(rel) == base
    ensures ClearCachePattern(cache, rel) == cache + dir + "/**/" + base + ".*"
  {
  }

  // ---------------------------------------------------------------------
  // Removal

  /** What a removal did. */
  datatype Removal = Unlinked | RemovedDirectory | KeptDirectory

  /** The error `statSync` raises for a path that does not exist. */
  function NoSuchPath(p: string): string {
    "ENOENT: no such file or directory, stat '" + p + "'"
  }

  /** `remove(path)`: an empty directory is removed, a non-empty one kept, anything else unlinked. */
  function RemoveSpec(s: Snapshot, p: string): (r: Result<(Snapshot, Removal), string>)
    ensures r.Err? <==> !Exists(s, p)
    ensures r.Err? ==> r.error == NoSuchPath(p)
    ensures r.Ok? ==> r.value.0.files <= s.files && r.value.0.dirs <= s.dirs
  {
    if p in s.dirs then
      if IsEmptyDir(s, p) then Ok((Snapshot(s.files, s.dirs - {p}), RemovedDirectory))
      else Ok((s, KeptDirectory))
    else if p in s.files then Ok((Snapshot(s.files - {p}, s.dirs), Unlinked))
    else Err(NoSuchPath(p))
  }

  /** `FSUtils.remove(path)`. */
  method Remove(disk: Disk, p: string) returns (r: Result<Removal, string>)
    modifies disk
    ensures var spec := RemoveSpec(old(disk.State()), p);
      (spec.Ok? ==> r == Ok(spec.value.1) && disk.State() == spec.value.0)
      && (spec.Err? ==> r == Err(spec.error) && disk.State() == old(disk.State()))
  {
    if p in disk.dirs {
      if IsEmptyDir(disk.State(), p) {
        disk.RemoveDirectory(p);
        r := Ok(RemovedDirectory);
      } else {
        r := Ok(KeptDirectory);
      }
    } else if p in disk.files {
      disk.Unlink(p);
      r := Ok(Unlinked);
    } else {
      r := Err(NoSuchPath(p));
    }
  }

  /**
   * A successful removal changes nothing but `p`: every other path exists
   * afterwards exactly when it did before, and `p` survives only as a
   * non-empty directory.
   */
  lemma {:induction false} RemoveOnlyTouchesTarget(s: Snapshot, p: string, q: string)
    requires RemoveSpec(s, p).Ok?
    ensures q != p ==> (Exists(RemoveSpec(s, p).value.0, q) <==> Exists(s, q))
    ensures Consistent(s) ==>
      (Exists(RemoveSpec(s, p).value.0, p) <==> (p in s.dirs && !IsEmptyDir(s, p)))
  {
  }

  /** A directory with anything inside it is left exactly as it was. */
  lemma {:induction false} RemoveKeepsNonEmptyDirectory(s: Snapshot, p: string, inside: string)
    requires p in s.dirs && inside in s.files + s.dirs && Below(inside, p)
    ensures RemoveSpec(s, p) == Ok((s, KeptDirectory))
  {
  }

  /** Removal keeps files and directories apart. */
  lemma {:induction false} RemoveKeepsConsistent(s: Snapshot, p: string)
    requires Consistent(s) && RemoveSpec(s, p).Ok?
    ensures Consistent(RemoveSpec(s, p).value.0)
  {
  }

  /** `removeImage(cfg, rel)`: `remove` at `cfg.path + rel`, and, when a file was unlinked, `clearCache(cfg, rel)`. */
  function RemoveImageSpec(s: Snapshot, imagesPath: string, cache: string, rel: string): (r: Result<(Snapshot, Removal), string>)
    ensures r.Err? <==> !Exists(s, imagesPath + rel)
    ensures r.Ok? ==> r.value.0.files <= s.files && r.value.0.dirs <= s.dirs
    ensures r.Ok? && r.value.1 != Unlinked ==> r == RemoveSpec(s, imagesPath + rel)
  {
    match RemoveSpec(s, imagesPath + rel)
    case Err(e) => Err(e)
    case Ok((after, how)) => if how == Unlinked then Ok((ClearCacheSpec(after, cache, rel), how)) else Ok((after, how))
  }

  /** `FSUtils.removeImage(cfg, rel)`. */
  method RemoveImage(disk: Disk, imagesPath: string, cache: string, rel: string) returns (r: Result<Removal, string>)
    modifies disk
    ensures var spec := RemoveImageSpec(old(disk.State()), imagesPath, cache, rel);
      (spec.Ok? ==> r == Ok(spec.value.1) && disk.State() == spec.value.0)
      && (spec.Err? ==> r == Err(spec.error) && disk.State() == old(disk.State()))
  {
    var absolutePath := imagesPath + rel;
    r := Remove(disk, absolutePath);
    if r == Ok(Unlinked) {
      ClearCache(disk, cache, rel);
    }
  }
}
