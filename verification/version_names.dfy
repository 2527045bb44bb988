/** The Artifact Registry resource name of an image version, derived from
    its `path@digest` reference (`getVersionNameFromUrl`, main.ts lines
    132-138). */
module VersionNames {
  import opened Strings
  import opened Entries

  /** The project, region and repository the cleaner was configured with. */
  datatype Config = Config(project: string, region: string, repository: string)

  /** Leading path segments (host, project, repository) that are not part
      of the package name. */
  const SkippedSegments: nat := 3
  /** The percent-encoding of '/' inside a package name. */
  const EncodedSlash: string := "%2F"

  function RepositoryName(cfg: Config): string
  {
    "projects/" + cfg.project + "/locations/" + cfg.region + "/repositories/" + cfg.repository
  }

  /** The package name: the path after its third '/', with every further
      '/' percent-encoded. */
  function PackageOf(url: string): (pkg: string)
    ensures '/' !in pkg
  {
    ReplaceRemoves(AfterNth(PathOf(url), '/', SkippedSegments), '/', EncodedSlash);
    ReplaceChar(AfterNth(PathOf(url), '/', SkippedSegments), '/', EncodedSlash)
  }

  /** The digest: the text between the first and the second '@'. A url
      without '@' leaves the destructured digest `undefined`, which the
      template literal prints as the word "undefined". */
  function DigestOf(url: string): string
  {
    if '@' in url then Before(After(url, '@'), '@') else "undefined"
  }

  /** `getVersionNameFromUrl`, written with `split`, `slice` and `join` as
      the source does. */
  function VersionNameFromUrl(cfg: Config, url: string): (name: string)
    ensures name == RepositoryName(cfg) + "/packages/" + PackageOf(url) + "/versions/" + DigestOf(url)
  {
    var parts := Split(url, '@');
    var path := parts[0];
    var digest := if |parts| > 1 then parts[1] else "undefined";
    var pathParts := Split(path, '/');
    var packageName := Join(Drop(pathParts, SkippedSegments), EncodedSlash);
    JoinDropSplit(path, '/', SkippedSegments, EncodedSlash);
    assert '@' in url ==> parts == [Before(url, '@')] + Split(After(url, '@'), '@');
    RepositoryName(cfg) + "/packages/" + packageName + "/versions/" + digest
  }

  /** A reference with exactly one '@' is its path, '@', and its digest. */
  lemma UrlRoundTrip(url: string)
    requires Count(url, '@') == 1
    ensures PathOf(url) + "@" + DigestOf(url) == url
  {
    var parts := Split(url, '@');
    assert |parts| == 2;
    assert '@' in url by {
      if '@' !in url {
        CountAbsent(url, '@');
      }
    }
    var rest := After(url, '@');
    assert parts == [Before(url, '@')] + Split(rest, '@');
    assert '@' !in rest;
  }

  /** For a path `host/project/repository/image/...` the package name is
      the image path with its slashes encoded. */
  lemma PackageOfImagePath(host: string, project: string, repository: string, image: string, digest: string)
    requires '/' !in host && '/' !in project && '/' !in repository
    requires '@' !in host + "/" + project + "/" + repository + "/" + image
    ensures PackageOf(host + "/" + project + "/" + repository + "/" + image + "@" + digest)
         == ReplaceChar(image, '/', EncodedSlash)
  {
    var path := host + "/" + project + "/" + repository + "/" + image;
    FirstOccurrence(path, '@', digest);
    assert path == host + "/" + (project + "/" + repository + "/" + image);
    FirstOccurrence(host, '/', project + "/" + repository + "/" + image);
    assert project + "/" + repository + "/" + image == project + "/" + (repository + "/" + image);
    FirstOccurrence(project, '/', repository + "/" + image);
    FirstOccurrence(repository, '/', image);
  }
}
