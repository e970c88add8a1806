/**
 * URI helpers of the GCS driver: splitting `gs://bucket/object`, substituting the
 * process-wide default bucket, and the byte-wise lower-casing of a string.
 * A Dafny `char` stands for one byte of the C++ `std::string`.
 */
module GcsUri {
  import opened Wrappers

  /** The scheme prefix every GCS URI must start with. */
  const Prefix: string := "gs://"

  /** A bucket name and an object name, as the driver hands them to the client. */
  datatype GcsPath = GcsPath(bucket: string, objectName: string)

  /** The URI that the driver would split into `p`. */
  function FormatGcsUri(p: GcsPath): string {
    Prefix + p.bucket + "/" + p.objectName
  }

  /** `std::string::find(c, from)`: the first index at or after `from` holding `c`, or `npos`. */
  function Find(s: string, c: char, from: nat): (r: Option<nat>)
    ensures r.Some? ==> from <= r.value < |s| && s[r.value] == c
    ensures r.Some? ==> forall j :: from <= j < r.value ==> s[j] != c
    ensures r.None? ==> forall j :: from <= j < |s| ==> s[j] != c
    decreases |s| - from
  {
    if from >= |s| then None
    else if s[from] == c then Some(from)
    else Find(s, c, from + 1)
  }

  /**
   * The substring computation of ParseGcsUri: None when the URI lacks the prefix or
   * has no `/` after it; otherwise the text up to the first `/` is the bucket and the
   * rest is the object.
   */
  function SplitGcsUri(uri: string): (r: Option<GcsPath>)
    ensures r.Some? <==> Prefix <= uri && '/' in uri[|Prefix|..]
    ensures r.Some? ==> FormatGcsUri(r.value) == uri && '/' !in r.value.bucket
  {
    if !(Prefix <= uri) then None
    else
      match Find(uri, '/', |Prefix|)
      case None =>
        assert '/' !in uri[|Prefix|..] by {
          forall k | 0 <= k < |uri| - |Prefix| ensures uri[|Prefix|..][k] != '/' {
            assert uri[|Prefix|..][k] == uri[|Prefix| + k];
          }
        }
        None
      case Some(pos) =>
        var p := GcsPath(uri[|Prefix|..pos], uri[pos + 1..]);
        assert uri[|Prefix|..][pos - |Prefix|] == '/';
        assert FormatGcsUri(p) == uri by {
          assert uri == uri[..|Prefix|] + uri[|Prefix|..pos] + [uri[pos]] + uri[pos + 1..];
        }
        Some(p)
  }

  /** Splitting a formatted URI gives back its parts, whenever the bucket has no `/`. */
  lemma {:induction false} SplitFormatRoundTrip(p: GcsPath)
    requires '/' !in p.bucket
    ensures SplitGcsUri(FormatGcsUri(p)) == Some(p)
  {
    var uri := FormatGcsUri(p);
    var n := |Prefix| + |p.bucket|;
    assert uri[n] == '/';
    assert uri[|Prefix|..][|p.bucket|] == '/';
    var q := SplitGcsUri(uri).value;
    // Both `p.bucket` and `q.bucket` are '/'-free prefixes of uri[5..] ending just before a '/'.
    assert uri[|Prefix|..] == p.bucket + "/" + p.objectName;
    assert uri[|Prefix|..] == q.bucket + "/" + q.objectName by {
      assert uri == Prefix + (q.bucket + "/" + q.objectName);
    }
    assert q.bucket == uri[|Prefix|..][..|p.bucket|] == p.bucket;
    assert q.objectName == uri[|Prefix|..][|p.bucket| + 1..] == p.objectName;
  }

  /**
   * ParseGcsUri: writes `bucket_name` and `object_name` only on success; both
   * failures (no `gs://`, no `/` after it) return false and leave them as they were.
   */
  method ParseGcsUri(gcsUri: string, bucketIn: string, objectNameIn: string)
    returns (ok: bool, bucket: string, objectName: string)
    ensures ok <==> SplitGcsUri(gcsUri).Some?
    ensures ok ==> GcsPath(bucket, objectName) == SplitGcsUri(gcsUri).value
    ensures !ok ==> bucket == bucketIn && objectName == objectNameIn
  {
    bucket, objectName := bucketIn, objectNameIn;
    if !(Prefix <= gcsUri) {
      return false, bucket, objectName;
    }
    var pos := Find(gcsUri, '/', |Prefix|);
    if pos.None? {
      return false, bucket, objectName;
    }
    bucket := gcsUri[|Prefix|..pos.value];
    objectName := gcsUri[pos.value + 1..];
    ok := true;
  }

  /** The bucket FallbackToDefaultBucket leaves behind, given the process-wide default. */
  function DefaultBucket(bucket: string, globalBucketName: string): (r: string)
    ensures bucket != "" ==> r == bucket
    ensures bucket == "" && globalBucketName != "" ==> r == globalBucketName
    ensures bucket == "" && globalBucketName == "" ==> r == ""
    ensures r == "" <==> bucket == "" && globalBucketName == ""
  {
    if bucket != "" then bucket else globalBucketName
  }

  /** Applying the fallback twice is the same as applying it once. */
  lemma DefaultBucketIdempotent(bucket: string, globalBucketName: string)
    ensures DefaultBucket(DefaultBucket(bucket, globalBucketName), globalBucketName)
         == DefaultBucket(bucket, globalBucketName)
  {
  }

  /** FallbackToDefaultBucket: rewrites an empty bucket with the default, when there is one. */
  method FallbackToDefaultBucket(bucketIn: string, globalBucketName: string) returns (bucket: string)
    ensures bucket == DefaultBucket(bucketIn, globalBucketName)
  {
    bucket := bucketIn;
    if bucket != "" {
      return;
    }
    if globalBucketName != "" {
      bucket := globalBucketName;
      return;
    }
    // both empty: the source only logs a critical message
  }

  /**
   * The names GetBucketAndObjectNames produces from `path` and the caller's initial
   * values: the parse result when the parse succeeds, the initial values otherwise
   * (the parse failure is ignored), then the bucket fallback.
   */
  function Resolve(path: string, bucketIn: string, objectNameIn: string, globalBucketName: string): (r: GcsPath)
    ensures SplitGcsUri(path).Some? && SplitGcsUri(path).value.bucket != "" ==> FormatGcsUri(r) == path
    ensures SplitGcsUri(path).Some? ==> r.objectName == SplitGcsUri(path).value.objectName
    ensures SplitGcsUri(path).None? ==> r == GcsPath(DefaultBucket(bucketIn, globalBucketName), objectNameIn)
    ensures r.bucket == "" ==> globalBucketName == ""
  {
    var parsed := match SplitGcsUri(path)
      case Some(p) => p
      case None => GcsPath(bucketIn, objectNameIn);
    GcsPath(DefaultBucket(parsed.bucket, globalBucketName), parsed.objectName)
  }

  /** GetBucketAndObjectNames: ParseGcsUri followed by FallbackToDefaultBucket. */
  method GetBucketAndObjectNames(path: string, bucketIn: string, objectNameIn: string, globalBucketName: string)
    returns (bucket: string, objectName: string)
    ensures GcsPath(bucket, objectName) == Resolve(path, bucketIn, objectNameIn, globalBucketName)
  {
    var _, b, o := ParseGcsUri(path, bucketIn, objectNameIn);
    bucket := FallbackToDefaultBucket(b, globalBucketName);
    objectName := o;
  }

  /** A URI that names its bucket resolves to exactly the names it is made of. */
  lemma ResolveNamedBucket(p: GcsPath, bucketIn: string, objectNameIn: string, globalBucketName: string)
    requires p.bucket != "" && '/' !in p.bucket
    ensures Resolve(FormatGcsUri(p), bucketIn, objectNameIn, globalBucketName) == p
  {
    SplitFormatRoundTrip(p);
  }

  /** A URI with an empty bucket (`gs:///object`) resolves to the default bucket. */
  lemma ResolveEmptyBucket(objectName: string, bucketIn: string, objectNameIn: string, globalBucketName: string)
    ensures Resolve(FormatGcsUri(GcsPath("", objectName)), bucketIn, objectNameIn, globalBucketName)
         == GcsPath(globalBucketName, objectName)
  {
  }

  /**
   * A URI that fails to parse is not rejected: with the empty initial names every
   * caller passes, it resolves to the default bucket and an empty object name.
   */
  lemma ResolveIgnoresParseFailure(path: string, globalBucketName: string)
    requires !(Prefix <= path) || '/' !in path[|Prefix|..]
    ensures Resolve(path, "", "", globalBucketName) == GcsPath(globalBucketName, "")
  {
  }

  predicate IsAsciiUpper(c: char) {
    'A' <= c <= 'Z'
  }

  /** `std::tolower` on one byte in the "C" locale: only 'A'..'Z' change. */
  function LowerChar(c: char): (r: char)
    ensures IsAsciiUpper(c) ==> r as int == c as int + 32
    ensures !IsAsciiUpper(c) ==> r == c
    ensures !IsAsciiUpper(r)
  {
    if IsAsciiUpper(c) then (c as int + 32) as char else c
  }

  /** `s` with every byte lower-cased. */
  function Lowercased(s: string): (r: string)
    ensures |r| == |s|
    ensures forall i :: 0 <= i < |s| ==> r[i] == LowerChar(s[i])
  {
    if s == [] then [] else [LowerChar(s[0])] + Lowercased(s[1..])
  }

  /** Lower-casing is idempotent. */
  lemma LowercasedIdempotent(s: string)
    ensures Lowercased(Lowercased(s)) == Lowercased(s)
  {
  }

  /** ToLower: copies the string and rewrites it byte by byte. */
  method ToLower(str: string) returns (low: string)
    ensures low == Lowercased(str)
  {
    low := str;
    var cnt := |low|;
    var i := 0;
    while i < cnt
      invariant 0 <= i <= cnt == |low| == |str|
      invariant forall k :: 0 <= k < i ==> low[k] == LowerChar(str[k])
      invariant forall k :: i <= k < cnt ==> low[k] == str[k]
    {
      low := low[i := LowerChar(low[i])];
      i := i + 1;
    }
  }
}
