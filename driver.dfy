/**
 * Existence queries of the driver. `anyMatch(bucket, pattern)` stands for the
 * client's object listing yielding any element.
 */
module Driver {
  import opened GcsUri

  const kFalse: int := 0
  const kTrue: int := 1

  /** driver_dirExists: object stores have no directories, so every directory exists. */
  function DirExists(path: string): (r: int)
    ensures r == kTrue
  {
    kTrue
  }

  /** driver_fileExists: true exactly when the listing for the resolved names is non-empty. */
  function FileExists(path: string, globalBucketName: string, anyMatch: (string, string) -> bool): (r: int)
    ensures r == kTrue || r == kFalse
    ensures var p := Resolve(path, "", "", globalBucketName);
      r == kTrue <==> anyMatch(p.bucket, p.objectName)
  {
    var p := Resolve(path, "", "", globalBucketName);
    if anyMatch(p.bucket, p.objectName) then kTrue else kFalse
  }

  /**
   * driver_exist: a path whose last byte is `/` is answered as a directory, without
   * consulting the listing; any other path as a file. The source reads the last byte
   * of the path, which an empty path does not have.
   */
  function Exist(path: string, globalBucketName: string, anyMatch: (string, string) -> bool): (r: int)
    requires |path| > 0
    ensures path[|path| - 1] == '/' ==> r == kTrue
    ensures path[|path| - 1] != '/' ==> r == FileExists(path, globalBucketName, anyMatch)
  {
    if path[|path| - 1] == '/' then DirExists(path) else FileExists(path, globalBucketName, anyMatch)
  }

  /** The answer for a directory path is the same whatever the store holds. */
  lemma ExistDirectoryIgnoresStore(path: string, globalBucketName: string,
                                   m1: (string, string) -> bool, m2: (string, string) -> bool)
    requires |path| > 0 && path[|path| - 1] == '/'
    ensures Exist(path, globalBucketName, m1) == Exist(path, globalBucketName, m2) == kTrue
  {
  }

  /** A file path exists exactly when its resolved names have a match. */
  lemma ExistFileIffMatch(p: GcsPath, globalBucketName: string, anyMatch: (string, string) -> bool)
    requires p.bucket != "" && '/' !in p.bucket && p.objectName != ""
    requires p.objectName[|p.objectName| - 1] != '/'
    ensures Exist(FormatGcsUri(p), globalBucketName, anyMatch) == kTrue <==> anyMatch(p.bucket, p.objectName)
  {
    ResolveNamedBucket(p, "", "", globalBucketName);
    var uri := FormatGcsUri(p);
    assert uri[|uri| - 1] == p.objectName[|p.objectName| - 1];
  }
}
