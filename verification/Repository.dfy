/** Repository files and the operations on their bytes that the gate relies on. */
module Repository {
  import opened Prelude
  import opened Chain
  import opened Json
  import DepthScan
  import JsonPointer

  const MAX_JSON_BYTES: nat := 16 * 1024 * 1024
  const MAX_JSON_DEPTH: nat := 64

  /** A regular file with one name, one with several, or what cannot be opened as a file, such as a directory. */
  datatype Kind = Regular | Linked | Directory

  /** `mode` is the permission bits. */
  datatype File = File(bytes: Bytes, mode: nat, kind: Kind)

  /** Where pathlib's resolve leads: to a path of the repository, to none, or to an exception. */
  datatype Target = To(path: string) | Nowhere | Unresolvable

  /** What a check that runs code says, if it does not raise. */
  datatype Answer = Accepts | Refuses | Raises

  /**
   * The world the gate looks at. Hashing, text decoding, JSON parsing, the two chain schemas, path resolution
   * and the checks that run code are parameters; everything the gate computes from them is modelled. `repo` is
   * keyed by resolved paths. `resolve` leads nowhere for spellings that are empty, absolute or leave the repository,
   * and is unresolvable for those that no file system call takes, such as one with a null byte, and for loops of
   * links. `isOne` tells the spellings of the number one.
   * The last three parameters may look at any file of the repository.
   */
  datatype Env = Env(
    repo: map<string, File>,
    resolve: string -> Target,
    sha256: Bytes -> string,
    utf8: Bytes -> Option<string>,
    parse: string -> Option<Json>,
    manifest: Json -> Option<Manifest>,
    run: Json -> Option<Run>,
    isOne: string -> bool,
    unicode: JsonPointer.Unicode,
    committed: string -> Option<(string, string)>,
    provenance: (map<string, File>, Manifest, Run) -> Answer,
    oracleSource: (map<string, File>, FileRef) -> Answer,
    releaseVerifier: (map<string, File>, Manifest, Run, bool) -> Answer)

  predicate Readable(env: Env, path: string) {
    && path in env.repo
    && env.repo[path].kind.Regular?
    && 1 <= |env.repo[path].bytes| <= MAX_JSON_BYTES
  }

  /** The referenced file is there, bounded, and has the stated digest. */
  predicate RefValid(env: Env, ref: FileRef) {
    var path := env.resolve(ref.path);
    path.To? && Readable(env, path.path) && env.sha256(env.repo[path.path].bytes) == ref.sha256
  }

  /** Looking for the referenced file raises. */
  predicate RefRaises(env: Env, ref: FileRef) {
    env.resolve(ref.path).Unresolvable?
  }

  predicate OptionalRefRaises(env: Env, ref: Option<FileRef>) {
    ref.Some? && RefRaises(env, ref.value)
  }

  predicate OptionalRefValid(env: Env, ref: Option<FileRef>) {
    ref.Some? ==> RefValid(env, ref.value)
  }

  /** The JSON object in a file, when the file may be read, decodes, nests within bounds and parses. */
  function Document(env: Env, path: string): (r: Option<Json>)
    ensures r.Some? ==> r.value.Obj?
  {
    if !Readable(env, path) then None
    else
      var text := env.utf8(env.repo[path].bytes);
      if text.None? || !DepthScan.Within(DepthScan.START, text.value, MAX_JSON_DEPTH) then None
      else
        var json := env.parse(text.value);
        if json.Some? && json.value.Obj? then json else None
  }

  method LoadJson(env: Env, path: string) returns (r: Option<Json>)
    ensures r == Document(env, path)
  {
    if !Readable(env, path) {
      return None;
    }
    var text := env.utf8(env.repo[path].bytes);
    if text.None? {
      return None;
    }
    var within := DepthScan.MaxJsonDepthWithin(text.value, MAX_JSON_DEPTH);
    if !within {
      return None;
    }
    var json := env.parse(text.value);
    if json.None? || !json.value.Obj? {
      return None;
    }
    r := json;
  }
}
