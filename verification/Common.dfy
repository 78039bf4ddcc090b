/** Vocabulary shared by the models of all components. */
module Common {

  datatype Option<+T> = None | Some(value: T)

  type UInt32 = x: int | 0 <= x < 0x1_0000_0000
  type UInt64 = x: int | 0 <= x < 0x1_0000_0000_0000_0000

  /** A cleaned absolute path is the list of its names; the root is []. */
  type Path = seq<string>

  /** path.Join(dir, name) for a single plain name. */
  function Join(dir: Path, name: string): Path {
    dir + [name]
  }

  datatype Kind = File | Dir

  /** One line of a directory listing. */
  datatype DirEntry = DirEntry(name: string, ino: nat, kind: Kind)

  /** The attributes of a reply. The attribute cache keeps the reply's own structure, not a copy. */
  class Attr {
    var ino: nat
    var size: int
    var modTime: int
  }

  datatype Access = ReadOnly | WriteOnly | ReadWrite

  /** Flags of an open file, as mapped for the backing file system. */
  datatype OpenFlags = OpenFlags(access: Access, append: bool, create: bool, trunc: bool, excl: bool)
  /** The error numbers the modelled code returns itself; whatever comes out of
      the backing file system is EBackend. */
  datatype Errno = OK | EAGAIN | EWOULDBLOCK | EBADF | EINVAL | ENOTCONN | ENOTSUP | EBackend
}
