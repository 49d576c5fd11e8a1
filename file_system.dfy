/**
 * The parts of the operating system the watch code consults, as values: the
 * file tree seen through stat(2) and opendir(3)/readdir(3), and the answers
 * inotify_add_watch(2) would give.
 */
module FileSystem {
  import opened Wrappers

  type Path = string

  /** File-type bits of st_mode (stat(2)). */
  const S_IFMT: bv32 := 0xF000
  const S_IFSOCK: bv32 := 0xC000
  const S_IFLNK: bv32 := 0xA000
  const S_IFREG: bv32 := 0x8000
  const S_IFBLK: bv32 := 0x6000
  const S_IFDIR: bv32 := 0x4000
  const S_IFCHR: bv32 := 0x2000
  const S_IFIFO: bv32 := 0x1000

  /**
   * What stat(2) reports for a path (its st_mode), and what reading it as a
   * directory yields: the names readdir returns, in order, or None when
   * opendir fails.
   */
  datatype Inode = Inode(mode: bv32, listing: Option<seq<string>>)

  /**
   * The host: whether inotify_init succeeded, the file tree (a path absent
   * from fs is one stat fails on), and for each path the watch descriptor
   * inotify_add_watch returns for it (absent or negative: the call fails).
   * Two paths naming one inode map to the same descriptor.
   */
  datatype Host = Host(inotify: bool, fs: map<Path, Inode>, grants: map<Path, int>)

  /** S_ISDIR. */
  predicate IsDir(mode: bv32) {
    mode & S_IFMT == S_IFDIR
  }

  /** stat succeeds on p and says it is a directory. */
  predicate IsDirAt(fs: map<Path, Inode>, p: Path) {
    p in fs && IsDir(fs[p].mode)
  }

  /** The "%s/%s" path of an entry name inside a directory. */
  function Join(dir: Path, name: string): (p: Path)
    ensures |p| == |dir| + 1 + |name|
  {
    dir + "/" + name
  }

  /** The two entries every directory lists and the walk never follows. */
  predicate IsDots(name: string) {
    name == "." || name == ".."
  }

  /** The value inotify_add_watch returns for p: a descriptor, or -1 on failure. */
  function AddWatchResult(host: Host, p: Path): (wd: int)
    ensures wd >= -1
    ensures wd >= 0 <==> host.inotify && p in host.grants && host.grants[p] >= 0
  {
    if host.inotify && p in host.grants && host.grants[p] >= 0 then host.grants[p] else -1
  }

  /** The kernel grants a watch on p. */
  predicate Granted(host: Host, p: Path) {
    AddWatchResult(host, p) >= 0
  }
}
