# GCS driver: URI handling and the file-handle cursor

This project models the core of a driver that lets a data-processing engine see
objects of Google Cloud Storage as files (`src/gcsplugin.cpp`): how a `gs://` URI is
split into a bucket and an object name, how an empty bucket falls back to the
process-wide default, how names are lower-cased, how `driver_fopen` builds the
`MultiPartFile` handle, how `driver_fseek` and `driver_fread` move its cursor, and how
`driver_exist` dispatches between directory and file paths.

Modules:

- `Wrappers` — `Option`.
- `GcsUri` — `ParseGcsUri`, `FallbackToDefaultBucket`, `GetBucketAndObjectNames`,
  `ToLower`, each as a method (they write through out-parameters or rewrite a string in
  a loop) specified by a pure function (`SplitGcsUri`, `DefaultBucket`, `Resolve`,
  `Lowercased`).
- `GcsFile` — the class `MultiPartFile` (fields `bucketname`, `filename`, `offset`,
  `filenames`, `cumulativeSize`), `Open` (`driver_fopen`), `TotalSize` (`totalSize`),
  `Seek` (`driver_fseek`), `Read` (`driver_fread`), with the pure `SeekTarget` and
  `ReadRequest` that say where the cursor goes and which range is requested.
- `Driver` — `Exist`, `FileExists`, `DirExists`.

Modelling choices:

- A Dafny `char` stands for one byte of a C++ `std::string`. `std::tolower` is taken in
  the "C" locale (the driver never sets another locale), where only `'A'..'Z'` change.
- `tOffset`/`long long` is the subset type `Int64`, `size_t` is `UInt64`. In
  `driver_fread`, `size * count` wraps modulo 2^64 and the end of the range is computed
  in unsigned arithmetic and converted back to a signed value; both are written out in
  `ReadRequest`. Signed overflow of the cursor has no defined outcome in C++, so the
  methods require that the new cursor fits in 64 bits.
- The storage client is a parameter: `getFileSize(bucket, object)` for the size query of
  `driver_fopen` (a size, or -1), `download(request)` for the range read of
  `driver_fread` (a count no larger than the buffer, or -1), `anyMatch(bucket, glob)` for
  "the listing of `driver_fileExists` yields any element". The default bucket
  (`globalBucketName`, set from the environment at connect time) is a parameter too.
- The model follows the code where a caller could expect more: the test suite (test/basic_test.cpp), the TODO comments at src/gcsplugin.cpp:330-333 and 423, or the C `fseek` convention that a negative resulting position is an error:
  - Parse failures are not reported. `GetBucketAndObjectNames` and `driver_fopen` go on
    with the names the caller started with, which are empty strings
    (`ResolveIgnoresParseFailure`).
  - A seek from the beginning accepts a negative offset (`SeekFromBeginAcceptsNegative`).
  - `driver_fread` never looks at `filenames` or `cumulativeSize`. It asks the client for
    `size * count` bytes from the cursor of the one object named by `filename`. It does
    not clamp at the end of file.
  - `driver_fopen` always builds a single-part table. Glob expansion and header
    deduplication exist only as a stub.
- The preconditions come from behaviour the source leaves undefined. `Exist` needs a
  non-empty path, because the source reads its last byte. `Seek` from the end needs a
  handle with at least one part, because `totalSize` indexes the last entry, and a
  write-mode handle has none.

## Model

| member | source | states |
|---|---|---|
| `GcsUri.Find` | src/gcsplugin.cpp:100 | the index returned holds the separator, nothing between the start position and it does, and None means no separator at or after the start |
| `GcsUri.SplitGcsUri` | src/gcsplugin.cpp:92-107 | a URI splits exactly when it starts with `gs://` and has a `/` after that prefix; then the bucket has no `/` and `gs://` + bucket + `/` + object is the URI again |
| `GcsUri.SplitFormatRoundTrip` | src/gcsplugin.cpp:100-107 | splitting `gs://b/o` gives back `b` and `o` whenever `b` has no `/` (the object may contain `/`) |
| `GcsUri.ParseGcsUri` | src/gcsplugin.cpp:90-110 | returns true exactly when the URI splits, and then writes the bucket and object of the split; on both failures it returns false with both out-parameters unchanged |
| `GcsUri.DefaultBucket` | src/gcsplugin.cpp:112-120 | a non-empty bucket is kept; an empty one becomes the default, which may itself be empty; the result is empty only when both are |
| `GcsUri.DefaultBucketIdempotent` | src/gcsplugin.cpp:112-120 | applying the fallback twice gives the same bucket as applying it once |
| `GcsUri.FallbackToDefaultBucket` | src/gcsplugin.cpp:112-120 | the bucket written back is the fallback of the bucket passed in |
| `GcsUri.GetBucketAndObjectNames` | src/gcsplugin.cpp:122-126 | the names written are the parse result (or the initial names when the parse fails) with the bucket fallback applied |
| `GcsUri.Resolve` | src/gcsplugin.cpp:122-126 | the names left by parse-then-fallback: a URI with a named bucket is re-formed exactly by them, the object is the parsed one whenever the parse succeeds, a failed parse keeps the initial names with the fallback applied, and the bucket is empty only when the default is empty too |
| `GcsUri.ResolveNamedBucket` | src/gcsplugin.cpp:122-126 | a URI with a non-empty, `/`-free bucket resolves to exactly its bucket and object |
| `GcsUri.ResolveEmptyBucket` | src/gcsplugin.cpp:122-126 | `gs:///o` resolves to the default bucket and object `o` |
| `GcsUri.ResolveIgnoresParseFailure` | src/gcsplugin.cpp:122-126 | a URI without the prefix or without a `/` after it resolves, from empty initial names, to the default bucket and an empty object |
| `GcsUri.LowerChar` | src/gcsplugin.cpp:134 | `'A'..'Z'` move up by 32 to `'a'..'z'`, every other byte is unchanged, and no result is an upper-case letter |
| `GcsUri.Lowercased` | src/gcsplugin.cpp:128-137 | the result has the input's length and holds at each index the lowered byte of the input |
| `GcsUri.LowercasedIdempotent` | src/gcsplugin.cpp:128-137 | lower-casing a lower-cased string changes nothing |
| `GcsUri.ToLower` | src/gcsplugin.cpp:128-137 | the loop leaves the string lower-cased byte by byte |
| `GcsFile.ToInt64` | src/gcsplugin.cpp:427-428 | the signed value is congruent to the unsigned one modulo 2^64 |
| `GcsFile.ReadRequest` | src/gcsplugin.cpp:424-428 | the request names the handle's bucket and object, starts at the cursor, asks for `size*count` modulo 2^64 bytes, and ends at the cursor plus that length whenever the sum fits in 64 bits |
| `GcsFile.ReadRequestInRange` | src/gcsplugin.cpp:424-428 | without wrap-around, `driver_fread` asks for `size*count` bytes of the range from the cursor to the cursor plus `size*count` of the handle's object |
| `GcsFile.SeekTarget` | src/gcsplugin.cpp:377-405 | from the beginning the offset is taken as given; from the current position or the end the sum is taken exactly when it is not negative; any other anchor is refused; an accepted relative seek never yields a negative offset |
| `GcsFile.SeekFromBeginAcceptsNegative` | src/gcsplugin.cpp:378-389 | a negative offset from the beginning is accepted, after which a relative seek by 0 is refused |
| `GcsFile.SeekFromEndIsAbsolute` | src/gcsplugin.cpp:378-399 | seeking `d` from the end lands where seeking `total + d` from the beginning does, when that is not negative |
| `GcsFile.SeekFromCurrentComposes` | src/gcsplugin.cpp:381-389 | two accepted relative seeks by `a` and `b` land where one by `a + b` does |
| `GcsFile.MultiPartFile.TotalSize` | src/gcsplugin.cpp:366-368 | the body reads the last entry; the contract places the total size among the cumulative sizes |
| `GcsFile.MultiPartFile.constructor` | src/gcsplugin.cpp:321-324 | a new handle carries the bucket and object names, offset 0 and no parts |
| `GcsFile.MultiPartFile.Seek` | src/gcsplugin.cpp:370-407 | returns 0 and moves the cursor to the target of `SeekTarget`, or returns -1 and leaves the cursor where it was |
| `GcsFile.MultiPartFile.Read` | src/gcsplugin.cpp:416-433 | returns what the client answered for the request of `ReadRequest` at the old cursor; the cursor advances by exactly that count, and stays put on -1 |
| `GcsFile.Open` | src/gcsplugin.cpp:312-351 | mode `'r'` gives a fresh handle at offset 0 whose one part is the resolved object with the size the client reports, so its total size is that size; `'w'` gives a fresh handle at offset 0 with no parts; every other mode, `'a'` included, gives null |
| `Driver.DirExists` | src/gcsplugin.cpp:283-287 | every directory exists |
| `Driver.FileExists` | src/gcsplugin.cpp:264-281 | true exactly when the listing for the resolved bucket and object is not empty, false otherwise |
| `Driver.Exist` | src/gcsplugin.cpp:249-262 | a path ending in `/` is answered true as a directory; any other path gets the file answer |
| `Driver.ExistDirectoryIgnoresStore` | src/gcsplugin.cpp:257-258 | the directory answer does not depend on what the store holds |
| `Driver.ExistFileIffMatch` | src/gcsplugin.cpp:257-281 | for `gs://b/o` with a named bucket and an object not ending in `/`, existence is exactly a listing match for `b` and `o` |

## Left out

- The driver's client wrappers (`DownloadFileRangeToBuffer`, `UploadBufferToGcs`, `getFileSize`) and the client calls (`ListObjects`, `DeleteObject`, `ReadObject`/`WriteObject` streams): network I/O behind a library; they are parameters or absent.
- `driver_fwrite` (one whole-object upload per call, so a second call replaces the object; it ignores the upload status and always returns `size*count`), `driver_remove` and `driver_getFileSize` (parse, fallback, one client call), `driver_copyToLocal` and `driver_copyFromLocal` (loops streaming 1024-byte chunks between a client stream and a local file; the upload only creates an object that does not exist yet): client and file I/O outside the modelled URI and cursor logic.
- `driver_fclose`: it only frees the handle; there is no explicit deallocation in Dafny.
- `commonHeaderLength`: never written or read by the code; the multi-part branch of `driver_fopen` is an unimplemented stub, so no glob expansion, header deduplication or part lookup is modelled.
- `driver_fopen` leaks the handle it allocated when the mode is refused; the model does not track allocation beyond `fresh`.
- `GetEnvironmentVariableOrDefault`, `driver_connect`, `driver_disconnect`, `driver_isConnected`, logging, and the `assert(driver_isConnected())` checks: environment and process-global connection state.
- Constant getters (name, version, scheme, read-only flag, buffer size, free disk space), `driver_getlasterror` and the no-op `fflush`, `mkdir`, `rmdir`.
- A null handle or a null path: the Dafny handle type is non-null and a Dafny `string` cannot be null, where the source asserts a non-null handle and builds a `std::string` from the path, which is undefined for a null pointer.
