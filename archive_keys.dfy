/**
 * Object keys of chart archives: how the indexer joins its repository prefix
 * with a chart file name, and which keys count as archives.
 */
module ArchiveKeys {

  const ARCHIVE_SUFFIX := ".tgz"

  predicate EndsWith(s: string, suffix: string) {
    |suffix| <= |s| && s[|s| - |suffix|..] == suffix
  }

  predicate StartsWithSlash(s: string) {
    |s| > 0 && s[0] == '/'
  }

  /** Two-argument `os.path.join` on POSIX: an absolute tail replaces the
      head; otherwise a '/' is inserted unless the head is empty or already
      ends in one. */
  function JoinPath(head: string, tail: string): string {
    if StartsWithSlash(tail) then tail
    else if head == [] || EndsWith(head, "/") then head + tail
    else head + "/" + tail
  }

  /** The keys kept from a bucket listing: only those ending in ".tgz". */
  predicate IsArchiveKey(key: string) {
    EndsWith(key, ARCHIVE_SUFFIX)
  }

  /** The repository prefix `path.join(S3_KEY, "")`. The configured key is
      never empty (an empty value stops the process at start-up), so the
      prefix always ends in '/'. */
  function RepoPrefix(s3Key: string): (prefix: string)
    requires s3Key != []
    ensures EndsWith(prefix, "/")
    ensures prefix == s3Key || prefix == s3Key + "/"
    ensures EndsWith(s3Key, "/") ==> prefix == s3Key
  {
    JoinPath(s3Key, "")
  }

  /** The object key a chart release is expected under:
      `path.join(prefix, f"{name}-{version}.tgz")`. */
  function ArchiveKey(prefix: string, name: string, version: string): (key: string)
    ensures IsArchiveKey(key)
    ensures EndsWith(prefix, "/") && !StartsWithSlash(name) ==>
              key == prefix + name + "-" + version + ARCHIVE_SUFFIX
    ensures StartsWithSlash(name) ==> key == name + "-" + version + ARCHIVE_SUFFIX
  {
    var fileName := name + "-" + version + ARCHIVE_SUFFIX;
    assert StartsWithSlash(fileName) <==> StartsWithSlash(name) by {
      if name != [] { assert fileName[0] == name[0]; } else { assert fileName[0] == '-'; }
    }
    var key := JoinPath(prefix, fileName);
    assert key[|key| - |ARCHIVE_SUFFIX|..] == ARCHIVE_SUFFIX;
    key
  }
}
