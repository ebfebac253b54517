/** The filesystem as the walker sees it, given as data instead of system calls.

    A directory listing (`ReadDir`) is a finite sequence of items, each the outcome
    of one call to the listing's `next`: a read error or a raw entry. An entry
    (`DirEntry`) carries its name as bytes and the outcome of `file_type()`; for a
    directory that outcome also carries the outcome of opening its own listing
    (`entry.path().read_dir()`). Repeated read errors on a listing are just several
    `ReadError` items in a row. */
module FileSystem {

  type Byte = bv8

  /** The byte that marks a hidden name: an ASCII full stop. */
  const Dot: Byte := 0x2E

  /** An operating-system error; its kind and message are not modelled. */
  datatype IoError = IoError(code: int)

  datatype Listing = Listing(items: seq<Item>)

  datatype Item =
    | ReadError(error: IoError)
    | Found(entry: Entry)

  datatype Entry = Entry(name: seq<Byte>, fileType: FileType)

  /** The outcome of `DirEntry::file_type()`. `OtherKind` is every type for which
      both `is_dir()` and `is_file()` are false: symbolic links (not followed),
      pipes, sockets, devices. */
  datatype FileType =
    | TypeError(error: IoError)
    | Directory(open: OpenOutcome)
    | RegularFile
    | OtherKind

  /** The outcome of `read_dir()` on a path. */
  datatype OpenOutcome =
    | OpenError(error: IoError)
    | Opened(listing: Listing)

  /** A name is hidden when its first byte is a dot; the empty name is not hidden. */
  predicate IsHidden(name: seq<Byte>)
  {
    |name| > 0 && name[0] == Dot
  }
}
