/** Normalisation of the raw Artifact Registry image listing into the
    entries the cleaner reasons about (main.ts, the loop over `images`). */
module Entries {
  import opened Wrappers
  import opened Strings

  /** A protobuf timestamp; only `seconds` is read (nanoseconds are ignored). */
  datatype Timestamp = Timestamp(seconds: int)

  /** One record of `listDockerImages`; every field may be missing. */
  datatype ImageRecord = ImageRecord(
    uri: Option<string>,
    uploadTime: Option<Timestamp>,
    tags: Option<seq<string>>,
    name: Option<string>)

  /** A normalised image version. `uploadedAt` is in milliseconds since the
      epoch, as the `Date` built from the record. */
  datatype Entry = Entry(
    path: string,
    name: Option<string>,
    url: string,
    uploadedAt: int,
    tags: seq<string>,
    hasVersion: bool,
    isLatest: bool,
    isDev: bool)

  const MsPerSecond: int := 1000
  const LatestTag: string := "latest"
  const DevPrefix: string := "dev-"

  /** The image path of a reference `path@digest`: `uri.split('@')[0]`,
      which is the text before the first '@'. */
  function PathOf(uri: string): (path: string)
    ensures path == Before(uri, '@')
  {
    Split(uri, '@')[0]
  }

  /** The records the cleaner keeps, stated without reference to `split`:
      present, with a uri, an upload time and a tag list, and a uri that
      does not start with `@` (so the path before the first `@` is not
      empty). */
  predicate Admissible(rec: Option<ImageRecord>)
  {
    && rec.Some?
    && rec.value.uri.Some?
    && rec.value.uploadTime.Some?
    && rec.value.tags.Some?
    && |rec.value.uri.value| > 0
    && rec.value.uri.value[0] != '@'
  }

  /** One iteration of the normalisation loop: `None` is a `continue`.
      `isValidSemver` stands for `semver.valid`. */
  function ToEntry(rec: Option<ImageRecord>, isValidSemver: string -> bool): (r: Option<Entry>)
    ensures r.Some? <==> Admissible(rec)
    ensures r.Some? ==>
      && r.value.url == rec.value.uri.value
      && r.value.name == rec.value.name
      && r.value.tags == rec.value.tags.value
      && r.value.uploadedAt == rec.value.uploadTime.value.seconds * 1000
    ensures r.Some? ==>
      // the path is the part of the url before its first '@'
      && r.value.path != ""
      && '@' !in r.value.path
      && (r.value.path == r.value.url || r.value.path + "@" <= r.value.url)
    ensures r.Some? ==>
      && (r.value.isLatest <==> "latest" in r.value.tags)
      && (r.value.isDev <==> exists t :: t in r.value.tags && "dev-" <= t)
      && (r.value.hasVersion <==> exists t :: t in r.value.tags && isValidSemver(t))
  {
    if rec.None? then None
    else
      var tag := rec.value;
      // `!tag.uri` also rejects the empty string
      if tag.uri.None? || tag.uri.value == "" then None
      else if tag.uploadTime.None? then None
      else if tag.tags.None? then None
      else
        var uri := tag.uri.value;
        var path := PathOf(uri);
        PathOfShape(uri);
        if path == "" then None
        else
          var tags := tag.tags.value;
          Some(Entry(
            path,
            tag.name,
            uri,
            tag.uploadTime.value.seconds * MsPerSecond,
            tags,
            exists t :: t in tags && isValidSemver(t),
            LatestTag in tags,
            exists t :: t in tags && DevPrefix <= t))
  }

  /** The path is the whole uri, or the uri continues with '@' after it; it
      is empty exactly when the uri is empty or starts with '@'. */
  lemma PathOfShape(uri: string)
    ensures '@' !in PathOf(uri)
    ensures PathOf(uri) == uri || PathOf(uri) + "@" <= uri
    ensures PathOf(uri) == "" <==> uri == "" || uri[0] == '@'
  {
  }

  /** The normalisation loop: one entry per admissible record, in listing
      order. */
  function Normalise(images: seq<Option<ImageRecord>>, isValidSemver: string -> bool): (entries: seq<Entry>)
    ensures |entries| <= |images|
    ensures forall e :: e in entries ==>
      exists k :: 0 <= k < |images| && ToEntry(images[k], isValidSemver) == Some(e)
    ensures forall k :: 0 <= k < |images| && Admissible(images[k]) ==>
      ToEntry(images[k], isValidSemver).value in entries
  {
    if images == [] then []
    else
      var rest := Normalise(images[1..], isValidSemver);
      var head := ToEntry(images[0], isValidSemver);
      assert forall k :: 1 <= k < |images| ==> images[k] == images[1..][k - 1];
      if head.Some? then [head.value] + rest else rest
  }

  /** Normalisation works record by record: the entries of a concatenated
      listing are those of the first part followed by those of the second,
      so input order is preserved and no record affects another. */
  lemma {:induction false} NormaliseAppend(a: seq<Option<ImageRecord>>, b: seq<Option<ImageRecord>>, isValidSemver: string -> bool)
    ensures Normalise(a + b, isValidSemver) == Normalise(a, isValidSemver) + Normalise(b, isValidSemver)
  {
    if a == [] {
      assert a + b == b;
    } else {
      assert (a + b)[1..] == a[1..] + b;
      assert (a + b)[0] == a[0];
      NormaliseAppend(a[1..], b, isValidSemver);
    }
  }

  /** A single record yields its entry when admissible and nothing otherwise. */
  lemma NormaliseSingle(rec: Option<ImageRecord>, isValidSemver: string -> bool)
    ensures Admissible(rec) ==> Normalise([rec], isValidSemver) == [ToEntry(rec, isValidSemver).value]
    ensures !Admissible(rec) ==> Normalise([rec], isValidSemver) == []
  {
  }
}
