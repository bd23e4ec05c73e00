/**
 * The response of an image upload: every entry of the uploaded-files array is
 * overwritten, in place, by the public URL of that file.
 */
module Upload {
  import NodePath

  /** An entry of the uploaded-files array: a stored upload, or the URL that replaced it. */
  datatype UploadEntry = UploadedFile(originalName: string) | PublicUrl(url: string)

  /** `entry.originalname`; an entry that is already a URL has none, which concatenates as "undefined". */
  function OriginalName(e: UploadEntry): string {
    match e
    case UploadedFile(name) => name
    case PublicUrl(_) => "undefined"
  }

  /** `prefix + endpoint + "/" + path`, followed by `/` when `path` is not empty. */
  function PartialPath(prefix: string, endpoint: string, path: string): (r: string)
    ensures |r| > |prefix + endpoint| && r[..|prefix + endpoint|] == prefix + endpoint && r[|r| - 1] == '/'
  {
    var partial := prefix + endpoint + "/" + path;
    if path != "" then partial + "/" else partial
  }

  /** What the loop leaves in the array: each entry replaced by its URL. */
  function PublicUrls(entries: seq<UploadEntry>, partial: string): (urls: seq<UploadEntry>)
    ensures |urls| == |entries|
    ensures forall i :: 0 <= i < |urls| ==> urls[i].PublicUrl?
    decreases |entries|
  {
    if entries == [] then []
    else [PublicUrl(partial + OriginalName(entries[0]))] + PublicUrls(entries[1..], partial)
  }

  /** The upload handler's loop: `files[i] = partialPath + files[i].originalname` for every `i`. */
  method PublishUrls(files: array<UploadEntry>, partial: string)
    modifies files
    ensures files[..] == PublicUrls(old(files[..]), partial)
  {
    ghost var original := files[..];
    for i := 0 to files.Length
      invariant files[..i] == PublicUrls(original[..i], partial)
      invariant files[i..] == original[i..]
    {
      assert files[i] == original[i];
      PublicUrlsSnoc(original[..i], original[i], partial);
      assert original[..i + 1] == original[..i] + [original[i]];
      files[i] := PublicUrl(partial + OriginalName(files[i]));
      assert files[..i + 1] == files[..i] + [files[i]];
    }
    assert files[..] == files[..files.Length];
    assert original[..files.Length] == original;
  }

  lemma {:induction false} PublicUrlsSnoc(entries: seq<UploadEntry>, e: UploadEntry, partial: string)
    ensures PublicUrls(entries + [e], partial) == PublicUrls(entries, partial) + [PublicUrl(partial + OriginalName(e))]
    decreases |entries|
  {
    if entries == [] {
      assert entries + [e] == [e];
    } else {
      assert (entries + [e])[1..] == entries[1..] + [e];
      PublicUrlsSnoc(entries[1..], e, partial);
    }
  }

  /** Same count, same order, and each entry the URL of the file at that position. */
  lemma {:induction false} PublicUrlsExactly(entries: seq<UploadEntry>, partial: string)
    ensures |PublicUrls(entries, partial)| == |entries|
    ensures forall i :: 0 <= i < |entries| ==>
      PublicUrls(entries, partial)[i] == PublicUrl(partial + OriginalName(entries[i]))
    decreases |entries|
  {
    if entries != [] {
      PublicUrlsExactly(entries[1..], partial);
    }
  }

  /** The URL's segments are the endpoint's, the directory's and the name's. */
  lemma {:induction false} UrlSegments(prefix: string, endpoint: string, path: string, name: string)
    ensures NodePath.Segments(PartialPath(prefix, endpoint, path) + name)
         == NodePath.Segments(prefix + endpoint) + NodePath.Segments(path) + NodePath.Segments(name)
  {
    var a := prefix + endpoint;
    var url := PartialPath(prefix, endpoint, path) + name;
    if path == "" {
      assert url == a + "/" + name;
      NodePath.SegmentsAround(a, name);
      NodePath.SegmentsOfEmpty();
    } else {
      assert url == a + "/" + (path + "/" + name);
      NodePath.SegmentsAround(a, path + "/" + name);
      NodePath.SegmentsAround(path, name);
    }
  }
}
