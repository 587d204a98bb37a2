/** What the operating system answers: paths, errors, directory listings and inotify descriptors.
    A `World` is an oracle; nothing is assumed of its answers beyond `Sane`. */
module Posix {
  import opened Options

  const PATH_MAX: nat := 4096
  const NAME_MAX: nat := 255
  const NUL: char := '\0'

  datatype Errno = EACCES | ENOENT | ENOSPC | ENOTDIR | ELOOP | ENAMETOOLONG | OtherErrno

  datatype EntryType = DtUnknown | DtDir | DtOther
  datatype Entry = Entry(name: string, kind: EntryType)
  datatype Listing = Opened(entries: seq<Entry>) | NotOpened(openErr: Errno)

  datatype FileKind = RegularFile | Directory | SpecialFile
  datatype Stat = Found(kind: FileKind) | NotFound(statErr: Errno)

  datatype Added = Descriptor(wd: nat) | Refused(addErr: Errno)

  datatype Answers = Answers(
    opendir: string -> Listing,
    addWatch: string -> Added,
    stat: string -> Stat,
    realpath: string -> Option<string>)

  predicate NulFree(s: string) {
    forall i | 0 <= i < |s| :: s[i] != NUL
  }

  /** The C string that a buffer holds: everything before the first NUL. */
  function CString(buf: string): string {
    if buf == "" || buf[0] == NUL then "" else [buf[0]] + CString(buf[1..])
  }

  lemma CStringIs(buf: string, s: string)
    requires NulFree(s) && |s| < |buf| && buf[..|s|] == s && buf[|s|] == NUL
    ensures CString(buf) == s
  {
    if s != "" {
      assert buf[0] == s[0] && buf[1..][..|s| - 1] == s[1..];
      assert s == [s[0]] + s[1..];
      CStringIs(buf[1..], s[1..]);
    }
  }

  /** A name a directory can list, other than "." and "..", which the walker skips itself. */
  predicate FileName(name: string) {
    && 0 < |name| <= NAME_MAX
    && forall i | 0 <= i < |name| :: name[i] != NUL && name[i] != '/'
  }

  /** The name of an entry that the walker follows, or of one that an event is about. */
  predicate EntryName(name: string) {
    FileName(name) && name != "." && name != ".."
  }

  ghost predicate DistinctNames(entries: seq<Entry>) {
    forall i, j | 0 <= i < j < |entries| :: entries[i].name != entries[j].name
  }

  /** A directory lists file names, once each. */
  ghost predicate Named(a: Answers) {
    forall p | a.opendir(p).Opened? ::
      && DistinctNames(a.opendir(p).entries)
      && forall e | e in a.opendir(p).entries :: FileName(e.name)
  }

  predicate Resolvable(path: string) {
    0 < |path| < PATH_MAX
  }

  /** The kernel resolves no empty path and none of PATH_MAX or more characters. */
  ghost predicate Sane(a: Answers) {
    && Named(a)
    && (forall p | a.opendir(p).Opened? :: Resolvable(p))
    && (forall p | a.addWatch(p).Descriptor? :: Resolvable(p))
    && (forall p | a.stat(p).Found? :: Resolvable(p))
  }

  type World = a: Answers | Sane(a)
    ghost witness Answers(_ => NotOpened(ENOENT), _ => Refused(ENOENT), _ => NotFound(ENOENT), _ => None)
}
