/** The SD card as the handlers see it through the SD library: which paths open,
    which of them are directories, and what enumerating a directory yields. */
module Storage {

  datatype Kind = File | Directory

  /** One enumerated child: `entry.isDirectory()` and `entry.path()`. */
  datatype Node = Node(kind: Kind, path: string)

  /** `kinds` holds every path that `SD.open` accepts; `children` the order in which
      `openNextFile` yields a directory's entries (a directory without an entry is empty). */
  datatype Volume = Volume(kinds: map<string, Kind>, children: map<string, seq<Node>>)

  /** A card that never mounted: nothing opens. */
  const NoCard := Volume(map[], map[])

  /** `SD.exists(path)`, equivalently a valid handle from `SD.open(path)`. */
  predicate Exists(v: Volume, path: string) {
    path in v.kinds
  }

  /** `SD.open(path).isDirectory()`; an invalid handle is not a directory. */
  predicate IsDirectory(v: Volume, path: string) {
    path in v.kinds && v.kinds[path] == Directory
  }

  function Children(v: Volume, path: string): seq<Node> {
    if path in v.children then v.children[path] else []
  }
}
