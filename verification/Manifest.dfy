/**
 * Catalog generations and their completeness check. A generation is a directory holding one
 * document and, written last, the manifest that declares it complete.
 *
 * JSON and SHA-256 are parameters: a `Codec` prints and parses manifests and hashes documents.
 */
module Manifest {
  import opened Common

  newtype Byte = x: int | 0 <= x < 256

  type Bytes = seq<Byte>

  const MANIFEST_VERSION := 2
  const CATALOG_VERSION := 1
  const DOCUMENT_FILENAME := "catalog.json"
  const FILENAME_PREFIX := "catalog-"
  const DEFAULT_KEEP := 7

  /** A UTC time to the second, as broken-down fields. */
  datatype Utc = Utc(year: nat, month: nat, day: nat, hour: nat, minute: nat, second: nat)

  datatype Manifest = Manifest(
    manifestVersion: int, generation: string, schemaVersion: int, exportedAt: Utc,
    document: string, sizeBytes: int, sha256: string)

  datatype Codec = Codec(encode: Manifest -> Bytes, parse: Bytes -> Option<Manifest>, hash: Bytes -> string)

  /** The first `k` bytes of the printed manifest. */
  function Prefix(codec: Codec, m: Manifest, k: int): Bytes {
    var all := codec.encode(m);
    if k < 0 then [] else if k > |all| then all else all[..k]
  }

  /**
   * What the protocol needs of JSON and of the hash: a printed manifest is read back; what has
   * been written of it so far reads as nothing or as that manifest, and once it reads it keeps
   * reading; different documents have different hashes.
   */
  ghost predicate Lawful(codec: Codec) {
    && (forall m :: codec.parse(codec.encode(m)) == Some(m))
    && (forall m, k :: codec.parse(Prefix(codec, m, k)) in {None, Some(m)})
    && (forall m, j, k | j <= k && codec.parse(Prefix(codec, m, j)).Some? :: codec.parse(Prefix(codec, m, k)).Some?)
    && (forall a, b | codec.hash(a) == codec.hash(b) :: a == b)
  }

  /** What is in a generation directory. */
  datatype Generation = Generation(document: Option<Bytes>, manifest: Option<Bytes>)

  datatype Reason =
    | NotPublished
    | Undecodable
    | ManifestVersionMissing
    | ManifestVersionTooNew
    | SchemaVersionMissing
    | SchemaVersionTooNew
    | OtherGeneration
    | OtherDocument
    | MissingDocument
    | SizeMismatch
    | HashMismatch

  /** The checks that need only the manifest file. */
  function VerifyManifest(codec: Codec, name: string, file: Option<Bytes>): Result<Manifest, Reason> {
    if file.None? then Failure(NotPublished)
    else
      var parsed := codec.parse(file.value);
      if parsed.None? then Failure(Undecodable)
      else
        var m := parsed.value;
        if m.manifestVersion <= 0 then Failure(ManifestVersionMissing)
        else if m.manifestVersion > MANIFEST_VERSION then Failure(ManifestVersionTooNew)
        else if m.schemaVersion <= 0 then Failure(SchemaVersionMissing)
        else if m.schemaVersion > CATALOG_VERSION then Failure(SchemaVersionTooNew)
        else if m.generation != name then Failure(OtherGeneration)
        else if m.document != DOCUMENT_FILENAME then Failure(OtherDocument)
        else Success(m)
  }

  function VerifyFile(codec: Codec, file: Option<Bytes>, size: int, sha256: string): Option<Reason> {
    if file.None? then Some(MissingDocument)
    else if |file.value| != size then Some(SizeMismatch)
    else if codec.hash(file.value) != sha256 then Some(HashMismatch)
    else None
  }

  function VerifyGeneration(codec: Codec, name: string, g: Generation): Result<Manifest, Reason> {
    var m := VerifyManifest(codec, name, g.manifest);
    if m.Failure? then m
    else
      var bad := VerifyFile(codec, g.document, m.value.sizeBytes, m.value.sha256);
      if bad.Some? then Failure(bad.value) else m
  }

  predicate Complete(codec: Codec, name: string, g: Generation) {
    VerifyGeneration(codec, name, g).Success?
  }

  /**
   * A generation is complete exactly when its manifest parses, is of a version that is understood,
   * was written for this generation, and describes the document that is there.
   */
  lemma CompleteIff(codec: Codec, name: string, g: Generation)
    ensures Complete(codec, name, g) <==>
      exists file, m, document ::
        && g.manifest == Some(file) && g.document == Some(document) && codec.parse(file) == Some(m)
        && 1 <= m.manifestVersion <= 2 && m.schemaVersion == 1
        && m.generation == name && m.document == "catalog.json"
        && m.sizeBytes == |document| && m.sha256 == codec.hash(document)
  {
    if Complete(codec, name, g) {
      var m := codec.parse(g.manifest.value).value;
      assert g.manifest == Some(g.manifest.value) && g.document == Some(g.document.value);
    }
  }

  /** What one export writes: the document and what the manifest says about it. */
  datatype Job = Job(document: Bytes, schemaVersion: int, exportedAt: Utc)

  /** The manifest `Write` makes for a job under the name it reserved. */
  function ManifestFor(codec: Codec, name: string, job: Job): Manifest {
    Manifest(MANIFEST_VERSION, name, job.schemaVersion, job.exportedAt, DOCUMENT_FILENAME, |job.document|,
        codec.hash(job.document))
  }

  predicate Readable(job: Job) {
    1 <= job.schemaVersion <= CATALOG_VERSION
  }

  /**
   * While the manifest of a job is being written next to its whole document, the generation is
   * complete exactly when what is there of the manifest parses, for a readable schema.
   */
  lemma CompleteWhileWriting(codec: Codec, name: string, job: Job, k: int)
    requires Lawful(codec)
    ensures Complete(codec, name, Generation(Some(job.document), Some(Prefix(codec, ManifestFor(codec, name, job), k))))
       <==> Readable(job) && codec.parse(Prefix(codec, ManifestFor(codec, name, job), k)).Some?
  {
    assert codec.parse(Prefix(codec, ManifestFor(codec, name, job), k)) in {None, Some(ManifestFor(codec, name, job))};
  }

  /** Publication is final: once complete, writing the rest of the manifest keeps it complete. */
  lemma CompleteStays(codec: Codec, name: string, job: Job, j: int, k: int)
    requires Lawful(codec) && j <= k
    requires Complete(codec, name,
      Generation(Some(job.document), Some(Prefix(codec, ManifestFor(codec, name, job), j))))
    ensures Complete(codec, name, Generation(Some(job.document), Some(Prefix(codec, ManifestFor(codec, name, job), k))))
  {
    CompleteWhileWriting(codec, name, job, j);
    CompleteWhileWriting(codec, name, job, k);
  }

  /** A whole export is complete exactly when its schema is readable. */
  lemma PublishedIsComplete(codec: Codec, name: string, job: Job)
    requires Lawful(codec)
    ensures Complete(codec, name, Generation(Some(job.document), Some(codec.encode(ManifestFor(codec, name, job)))))
       <==> Readable(job)
  {
    var m := ManifestFor(codec, name, job);
    assert Prefix(codec, m, |codec.encode(m)|) == codec.encode(m);
    CompleteWhileWriting(codec, name, job, |codec.encode(m)|);
  }

  /**
   * A torn or altered document is never taken for complete: whatever is on disk, a complete
   * generation holds the one document its manifest declares.
   */
  lemma CompleteIsWhole(codec: Codec, name: string, g: Generation, document: Bytes)
    requires Lawful(codec)
    requires Complete(codec, name, g)
    requires VerifyGeneration(codec, name, g).value.sha256 == codec.hash(document)
    ensures g.document == Some(document)
  {
  }
}
