/**
 * Persistence of processed documents to an object store. Each document's source URL is
 * sanitised into a blob key, its markdown is written to a temporary file and uploaded, and the
 * document gets the public URL of the upload when it succeeds. Every document is kept whatever
 * happens to its upload, and the temporary directory is cleaned up afterwards.
 */
module Storage {
  import opened Wrappers
  import opened Text
  import opened Schemas

  // ---------------------------------------------------------------- keys and URLs

  /** The characters a blob key keeps: ASCII letters and digits, '_', '-' and '.'. */
  predicate IsKeyChar(c: char) {
    'a' <= c <= 'z' || 'A' <= c <= 'Z' || '0' <= c <= '9' || c == '_' || c == '-' || c == '.'
  }

  function SanitizeChar(c: char): char {
    if IsKeyChar(c) then c else '_'
  }

  /** Every character outside the key set becomes '_'. */
  function Sanitize(s: string): (r: string)
    ensures |r| == |s|
    ensures forall i :: 0 <= i < |r| ==> IsKeyChar(r[i])
    ensures forall i :: 0 <= i < |s| && IsKeyChar(s[i]) ==> r[i] == s[i]
    ensures forall i :: 0 <= i < |s| && !IsKeyChar(s[i]) ==> r[i] == '_'
  {
    seq(|s|, i requires 0 <= i < |s| => SanitizeChar(s[i]))
  }

  lemma SanitizeIdempotent(s: string)
    ensures Sanitize(Sanitize(s)) == Sanitize(s)
  {
  }

  /** A string made of key characters only is its own sanitised form. */
  lemma SanitizeKeepsKeys(s: string)
    requires forall i :: 0 <= i < |s| ==> IsKeyChar(s[i])
    ensures Sanitize(s) == s
  {
  }

  const KeyPrefixLength: int := 100
  const ObjectHost: string := "https://storage.googleapis.com/"

  /** The blob key: base path, the first 100 sanitised characters of the URL, the URL's hash. */
  function BlobName(basePath: string, url: string, h: int): (r: string)
    ensures StartsWith(r, basePath + "/")
    ensures EndsWith(r, "_" + IntToString(h) + ".md")
    ensures |r| <= |basePath| + 1 + KeyPrefixLength + 1 + |IntToString(h)| + 3
  {
    var r := basePath + "/" + PyPrefix(Sanitize(url), KeyPrefixLength) + "_" + IntToString(h) + ".md";
    assert r[|r| - |"_" + IntToString(h) + ".md"|..] == "_" + IntToString(h) + ".md";
    r
  }

  /** `a + "_" + d` splits at its last '_' when `d` has none. */
  lemma SplitAtLastUnderscore(a1: string, d1: string, a2: string, d2: string)
    requires a1 + "_" + d1 == a2 + "_" + d2
    requires '_' !in d1 && '_' !in d2
    ensures a1 == a2 && d1 == d2
  {
    var s := a1 + "_" + d1;
    var n := |s|;
    assert s[n - |d1| - 1] == '_';
    assert s[n - |d2| - 1] == '_';
    assert forall j :: n - |d1| <= j < n ==> s[j] == d1[j - (n - |d1|)];
    assert forall j :: n - |d2| <= j < n ==> s[j] == d2[j - (n - |d2|)];
    assert |d1| == |d2|;
    assert a1 == s[..|a1|] == a2;
    assert d1 == s[n - |d1|..] == d2;
  }

  /** Equal keys under one base path come from equal hashes and equal sanitised prefixes. */
  lemma {:induction false} BlobNameDeterminesHash(basePath: string, u1: string, h1: int, u2: string, h2: int)
    requires BlobName(basePath, u1, h1) == BlobName(basePath, u2, h2)
    ensures h1 == h2
    ensures PyPrefix(Sanitize(u1), KeyPrefixLength) == PyPrefix(Sanitize(u2), KeyPrefixLength)
  {
    var a1 := basePath + "/" + PyPrefix(Sanitize(u1), KeyPrefixLength);
    var a2 := basePath + "/" + PyPrefix(Sanitize(u2), KeyPrefixLength);
    var d1 := IntToString(h1);
    var d2 := IntToString(h2);
    var n1 := BlobName(basePath, u1, h1);
    assert n1 == (a1 + "_" + d1) + ".md";
    assert BlobName(basePath, u2, h2) == (a2 + "_" + d2) + ".md";
    assert a1 + "_" + d1 == n1[..|n1| - 3] == a2 + "_" + d2;
    SplitAtLastUnderscore(a1, d1, a2, d2);
    IntToStringInjective(h1, h2);
    assert PyPrefix(Sanitize(u1), KeyPrefixLength) == a1[|basePath| + 1..];
    assert PyPrefix(Sanitize(u2), KeyPrefixLength) == a2[|basePath| + 1..];
  }

  /** The object store's public address of a blob: host, bucket, '/', then the blob name unchanged. */
  function PublicUrl(bucket: string, blob: string): (u: string)
    ensures StartsWith(u, ObjectHost + bucket + "/")
    ensures u[|ObjectHost + bucket + "/"|..] == blob
  {
    ObjectHost + bucket + "/" + blob
  }

  /**
   * The public URL of an upload, or `None` when no bucket is configured (`configured` is the
   * bucket setting) or the upload fails (`uploaded` is whether it goes through).
   */
  function UploadRawArtifact(configured: Option<string>, bucketName: string, blobName: string, uploaded: bool): (r: Option<string>)
    ensures !Truthy(configured) ==> r.None?
    ensures r.Some? <==> Truthy(configured) && uploaded
    ensures r.Some? ==> Truthy(r) && StartsWith(r.value, ObjectHost + bucketName + "/") && EndsWith(r.value, blobName)
  {
    if !Truthy(configured) then None
    else if !uploaded then None
    else
      var url := PublicUrl(bucketName, blobName);
      assert url[|url| - |blobName|..] == blobName;
      Some(url)
  }

  /** The answer to reading a setting: its value, or an error because the settings do not declare it. */
  datatype SettingRead = Declared(value: Option<string>) | Undeclared

  /**
   * The service-account key file setting as the configuration has it: its declaration is
   * commented out and undeclared settings are ignored, so reading it raises.
   */
  const ServiceAccountFileSetting: SettingRead := Undeclared

  /**
   * `upload_raw_artifact` as written: after the bucket check, the first statement inside the
   * `try` reads the service-account setting, and a read that raises ends in the handler's `None`.
   * With the setting declared, the credentials chosen do not change the outcome.
   */
  function UploadRawArtifactAsWritten(configured: Option<string>, bucketName: string, blobName: string, uploaded: bool,
                                      serviceAccount: SettingRead): (r: Option<string>)
    ensures serviceAccount.Undeclared? ==> r.None?
    ensures serviceAccount.Declared? ==> r == UploadRawArtifact(configured, bucketName, blobName, uploaded)
  {
    if !Truthy(configured) then None
    else if serviceAccount.Undeclared? then None
    else UploadRawArtifact(configured, bucketName, blobName, uploaded)
  }

  /** As configured, no upload ever yields a link, even to a configured bucket with every upload going through. */
  lemma AsWrittenUploadNeverLinks(bucketName: string, blobName: string)
    requires bucketName != ""
    ensures UploadRawArtifact(Some(bucketName), bucketName, blobName, true).Some?
    ensures UploadRawArtifactAsWritten(Some(bucketName), bucketName, blobName, true, ServiceAccountFileSetting).None?
  {
  }

  /** Within one bucket, the public URL names its blob. */
  lemma PublicUrlDeterminesBlob(bucket: string, b1: string, b2: string)
    requires PublicUrl(bucket, b1) == PublicUrl(bucket, b2)
    ensures b1 == b2
  {
    var prefix := ObjectHost + bucket + "/";
    assert b1 == PublicUrl(bucket, b1)[|prefix|..];
    assert b2 == PublicUrl(bucket, b2)[|prefix|..];
  }

  // ---------------------------------------------------------------- the store loop

  /** The outcomes of the pipeline's file system and object store, per item or per file. */
  datatype StorageEnv = StorageEnv(
    bucket: Option<string>,
    hashOf: string -> int,
    openSucceeds: nat -> bool,
    writeSucceeds: nat -> bool,
    uploadSucceeds: nat -> bool,
    unlinkSucceeds: string -> bool)

  /** The temporary upload directory: whether it exists, and the files in it. */
  datatype ScratchDir = ScratchDir(present: bool, files: set<string>)

  function TempFileName(h: int): string {
    IntToString(h) + ".md"
  }

  function KeyOf(item: ProcessedContent, basePath: string, env: StorageEnv): string {
    BlobName(basePath, item.sourceUrl, env.hashOf(item.sourceUrl))
  }

  /** The link the `i`-th upload yields: none when its temporary file cannot be created or written. */
  function UploadLink(item: ProcessedContent, i: nat, basePath: string, env: StorageEnv): Option<string> {
    if !env.openSucceeds(i) || !env.writeSucceeds(i) then None
    else UploadRawArtifact(env.bucket, env.bucket.GetOr(""), KeyOf(item, basePath, env), env.uploadSucceeds(i))
  }

  /** The `i`-th item after its attempt: the link is set when the upload yields one. */
  function StoredItem(item: ProcessedContent, i: nat, basePath: string, env: StorageEnv): (r: ProcessedContent)
    ensures r.(gcsStorageLink := item.gcsStorageLink) == item
    ensures UploadLink(item, i, basePath, env).Some? ==> r.gcsStorageLink == UploadLink(item, i, basePath, env)
    ensures UploadLink(item, i, basePath, env).None? ==> r == item
  {
    var link := UploadLink(item, i, basePath, env);
    if Truthy(link) then item.(gcsStorageLink := link) else item
  }

  /** The `i`-th item after its attempt as written: the upload never yields a link, so the item is unchanged. */
  function StoredItemAsWritten(item: ProcessedContent, i: nat, basePath: string, env: StorageEnv): (r: ProcessedContent)
    ensures r == item
  {
    var link := if !env.openSucceeds(i) || !env.writeSucceeds(i) then None
                else UploadRawArtifactAsWritten(env.bucket, env.bucket.GetOr(""), KeyOf(item, basePath, env),
                                                env.uploadSucceeds(i), ServiceAccountFileSetting);
    if Truthy(link) then item.(gcsStorageLink := link) else item
  }

  /**
   * The temporary files created for the first `n` items. Opening the file for writing creates it,
   * so a write that fails afterwards still leaves its file behind.
   */
  function CreatedUpTo(items: seq<ProcessedContent>, env: StorageEnv, n: nat): set<string>
    requires n <= |items|
  {
    if n == 0 then {}
    else CreatedUpTo(items, env, n - 1) +
         (if env.openSucceeds(n - 1) then {TempFileName(env.hashOf(items[n - 1].sourceUrl))} else {})
  }

  /** The file of every item whose open succeeds is among the created files, whether or not its write succeeds. */
  lemma {:induction false} CreatedFileIsKept(items: seq<ProcessedContent>, env: StorageEnv, i: nat, n: nat)
    requires i < n <= |items| && env.openSucceeds(i)
    ensures TempFileName(env.hashOf(items[i].sourceUrl)) in CreatedUpTo(items, env, n)
    decreases n
  {
    if i < n - 1 {
      CreatedFileIsKept(items, env, i, n - 1);
    }
  }

  /** The directory after trying to remove every file in it and then the directory itself. */
  function Cleaned(files: set<string>, unlinkOk: string -> bool): (d: ScratchDir)
    ensures d.files <= files
    ensures forall f :: f in files ==> (f in d.files <==> !unlinkOk(f))
    ensures d.present <==> d.files != {}
  {
    var left := set f | f in files && !unlinkOk(f);
    ScratchDir(left != {}, left)
  }

  /** With every removal succeeding, neither the files nor the directory remain. */
  lemma CleanupRemovesEverything(files: set<string>, unlinkOk: string -> bool)
    requires forall f :: f in files ==> unlinkOk(f)
    ensures Cleaned(files, unlinkOk) == ScratchDir(false, {})
  {
  }

  /** Remove each file, keeping the ones whose removal fails, then remove the directory if empty. */
  method CleanUpScratch(files: set<string>, unlinkOk: string -> bool) returns (after: ScratchDir)
    ensures after == Cleaned(files, unlinkOk)
  {
    var pending := files;
    var left: set<string> := {};
    while pending != {}
      invariant pending <= files
      invariant left == set f | f in files - pending && !unlinkOk(f)
      decreases |pending|
    {
      var f :| f in pending;
      if !unlinkOk(f) {
        left := left + {f};
      }
      pending := pending - {f};
    }
    assert files - pending == files;
    after := ScratchDir(left != {}, left);
  }

  /**
   * One pass of the store loop: create the `i`-th item's temporary file, write its markdown,
   * upload it under the item's key, and set the link when the upload yields one. `created` names
   * the temporary file once opening it succeeds, even when the write then fails.
   */
  method StoreOne(item: ProcessedContent, i: nat, basePath: string, env: StorageEnv)
    returns (updated: ProcessedContent, created: Option<string>)
    ensures updated == StoredItem(item, i, basePath, env)
    ensures created == (if env.openSucceeds(i) then Some(TempFileName(env.hashOf(item.sourceUrl))) else None)
  {
    var h := env.hashOf(item.sourceUrl);
    var blob := BlobName(basePath, item.sourceUrl, h);
    updated := item;
    created := None;
    if env.openSucceeds(i) {
      created := Some(TempFileName(h));
      if env.writeSucceeds(i) {
        var link := UploadRawArtifact(env.bucket, env.bucket.GetOr(""), blob, env.uploadSucceeds(i));
        if Truthy(link) {
          updated := item.(gcsStorageLink := link);
        }
      }
    }
  }

  lemma StoredUpToExtend(items: seq<ProcessedContent>, stored: seq<ProcessedContent>, i: nat, basePath: string, env: StorageEnv)
    requires i < |items| && |stored| == i
    requires forall j :: 0 <= j < i ==> stored[j] == StoredItem(items[j], j, basePath, env)
    ensures var s := stored + [StoredItem(items[i], i, basePath, env)];
      forall j :: 0 <= j < i + 1 ==> s[j] == StoredItem(items[j], j, basePath, env)
  {
    var s := stored + [StoredItem(items[i], i, basePath, env)];
    forall j | 0 <= j < i + 1 ensures s[j] == StoredItem(items[j], j, basePath, env) {
      if j < i {
        assert s[j] == stored[j];
      }
    }
  }

  /**
   * Stores every item: `stored` is the input list with the links the uploads set, and
   * `after` the temporary directory once cleaned up.
   */
  method StoreProcessedContent(items: seq<ProcessedContent>, basePath: string, env: StorageEnv, scratch: ScratchDir)
    returns (stored: seq<ProcessedContent>, after: ScratchDir)
    ensures items == [] ==> stored == [] && after == scratch
    ensures |stored| == |items|
    ensures forall i :: 0 <= i < |items| ==> stored[i] == StoredItem(items[i], i, basePath, env)
    ensures items != [] ==> after == Cleaned(scratch.files + CreatedUpTo(items, env, |items|), env.unlinkSucceeds)
  {
    if items == [] {
      return [], scratch;
    }
    var files := scratch.files;
    stored := [];
    var i := 0;
    while i < |items|
      invariant 0 <= i <= |items|
      invariant |stored| == i
      invariant forall j :: 0 <= j < i ==> stored[j] == StoredItem(items[j], j, basePath, env)
      invariant files == scratch.files + CreatedUpTo(items, env, i)
    {
      var updated, created := StoreOne(items[i], i, basePath, env);
      if created.Some? {
        files := files + {created.value};
      }
      StoredUpToExtend(items, stored, i, basePath, env);
      stored := stored + [updated];
      i := i + 1;
    }
    after := CleanUpScratch(files, env.unlinkSucceeds);
  }

  /** Without a configured bucket no item gets a link. */
  lemma NoBucketNoLinks(item: ProcessedContent, i: nat, basePath: string, env: StorageEnv)
    requires !Truthy(env.bucket)
    ensures StoredItem(item, i, basePath, env) == item
  {
  }

  /** A link that the store sets is the public URL of the item's own key. */
  lemma StoredLinkNamesItsKey(item: ProcessedContent, i: nat, basePath: string, env: StorageEnv)
    requires StoredItem(item, i, basePath, env).gcsStorageLink != item.gcsStorageLink
    ensures Truthy(env.bucket) && env.openSucceeds(i) && env.writeSucceeds(i) && env.uploadSucceeds(i)
    ensures StoredItem(item, i, basePath, env).gcsStorageLink ==
            Some(PublicUrl(env.bucket.value, KeyOf(item, basePath, env)))
  {
  }

  /** A temporary file of this run remains only when removing it fails. */
  lemma CreatedFileRemovedUnlessUnlinkFails(items: seq<ProcessedContent>, env: StorageEnv, extra: set<string>, f: string)
    requires f in CreatedUpTo(items, env, |items|) && env.unlinkSucceeds(f)
    ensures f !in Cleaned(extra + CreatedUpTo(items, env, |items|), env.unlinkSucceeds).files
  {
  }

  /**
   * A write that fails after its file was created keeps the item unchanged, and the partial file
   * stays in the scratch directory when its unlink fails.
   */
  lemma FailedWriteLeavesItsFile(items: seq<ProcessedContent>, basePath: string, env: StorageEnv, extra: set<string>, i: nat)
    requires i < |items| && env.openSucceeds(i) && !env.writeSucceeds(i)
    requires !env.unlinkSucceeds(TempFileName(env.hashOf(items[i].sourceUrl)))
    ensures StoredItem(items[i], i, basePath, env) == items[i]
    ensures TempFileName(env.hashOf(items[i].sourceUrl)) in Cleaned(extra + CreatedUpTo(items, env, |items|), env.unlinkSucceeds).files
  {
    CreatedFileIsKept(items, env, i, |items|);
  }
}
