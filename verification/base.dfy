/**
 Shared vocabulary of the save pipeline: optional values (Kotlin's nullable
 types), bytes, and the file system the pipeline writes into, together with
 the I/O faults that can make a write fail.
 */
module Base {

  /** Kotlin's `T?`: `None` stands for `null`. */
  datatype Option<+T> = None | Some(value: T) {

    /** Kotlin's elvis operator `this ?: default`. */
    function OrElse(default: T): T {
      match this
      case Some(v) => v
      case None => default
    }
  }

  /** An Android `Uri`: its full text, its scheme, and its last path segment
      (`null` when the path is empty). */
  datatype Uri = Uri(text: string, scheme: string, lastPathSegment: Option<string>)

  newtype byte = b: int | 0 <= b < 256

  type Path = string

  /** What a file holds. Text files are written through a `FileWriter`;
      their character encoding is not modelled. */
  datatype Contents = Binary(bytes: seq<byte>) | Text(chars: string)

  const Empty: Contents := Binary([])

  type FileSystem = map<Path, Contents>

  /**
   Which of the I/O steps on one destination throw an `IOException`:
   `File.createNewFile` (only reached when the file is absent), opening the
   output stream or writer, the write with the given 0-based index, and the
   final `close`.
   */
  datatype Faults = Faults(createFails: bool, openFails: bool, failingWrite: Option<nat>, closeFails: bool)

  const NoFaults: Faults := Faults(false, false, None, false)

  /** Kotlin's `String.startsWith(prefix)`. */
  predicate StartsWith(s: string, prefix: string) {
    |prefix| <= |s| && s[..|prefix|] == prefix
  }

  /** The output stream (or writer) on `dest` gets opened: neither the
      `createNewFile` of an absent file nor the open itself throws. */
  predicate OutputOpens(fs: FileSystem, dest: Path, faults: Faults) {
    !(dest !in fs && faults.createFails) && !faults.openFails
  }

  /** Only the file at `dest` may differ between the two file systems. */
  ghost predicate OnlyTouches(before: FileSystem, after: FileSystem, dest: Path) {
    OnlyTouchesAll(before, after, {dest})
  }

  /** Only files at paths in `dests` may differ between the two file systems. */
  ghost predicate OnlyTouchesAll(before: FileSystem, after: FileSystem, dests: set<Path>) {
    && (forall p :: p !in dests ==> (p in after <==> p in before))
    && (forall p :: p in before && p !in dests ==> after[p] == before[p])
  }

  /** The `if (!fout.exists()) fout.createNewFile()` step, when it does not throw. */
  function CreateIfAbsent(fs: FileSystem, dest: Path): (r: FileSystem)
    ensures dest in r
    ensures dest in fs ==> r == fs
    ensures dest !in fs ==> r[dest] == Empty
    ensures OnlyTouches(fs, r, dest)
  {
    if dest in fs then fs else fs[dest := Empty]
  }
}
