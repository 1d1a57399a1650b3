/**
 * What `cfg!(target_os = ..)` and `std::env::var` contribute: the target
 * operating system and the inherited environment, passed as parameters.
 */
module Platform {
  datatype Os = Linux | MacOs | Windows | OtherOs

  /** The environment the process inherited. */
  type Env = map<string, string>

  /** The list separator of `PATH`-like variables: `;` on Windows, `:` elsewhere. */
  function SepChar(os: Os): char {
    if os == Windows then ';' else ':'
  }

  function Separator(os: Os): string {
    [SepChar(os)]
  }

  /** `std::env::var(key).unwrap_or_default()`: an unset variable reads as empty. */
  function VarOrEmpty(env: Env, key: string): (r: string)
    ensures key !in env ==> r == ""
    ensures key in env ==> r == env[key]
  {
    if key in env then env[key] else ""
  }

  /**
   * `Path::join` / `PathBuf::push` for `/`-separated paths: an absolute right
   * side replaces the left, and no separator is added when the left side is
   * empty or already ends in one.
   */
  function JoinPath(a: string, b: string): (r: string)
    ensures |b| > 0 && b[0] == '/' ==> r == b
    ensures !(|b| > 0 && b[0] == '/') ==> a <= r && |b| <= |r| && r[|r| - |b|..] == b
  {
    if |b| > 0 && b[0] == '/' then b
    else if a == "" || a[|a| - 1] == '/' then a + b
    else a + "/" + b
  }

  /** `Path::is_relative` for `/`-separated paths. */
  predicate IsRelative(p: string) {
    !(|p| > 0 && p[0] == '/')
  }

  /**
   * The file system as the paths that exist, each mapped to what it is: a
   * directory, a file copied or hard-linked from `source`, or a symbolic link.
   */
  datatype Node = Dir | File(source: string) | Link(target: string)

  type FileSystem = map<string, Node>

  /** `fs::metadata(path).is_ok()` / `Path::exists`: every recorded path exists. */
  predicate Exists(fs: FileSystem, path: string) {
    path in fs
  }
}
