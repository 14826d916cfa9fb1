/** The records the provider produces (`IFile` and `IFileStat` of the shared model package),
    the raw directory entries it reads, and the helpers it calls from other packages. */
module Records {
  import opened Results
  import opened JsString
  import opened PosixPath

  datatype FileType = File | Directory

  /** The attributes of a directory entry as the transfer protocol reports them
      (sizes in bytes, times in whole seconds since the epoch). */
  datatype Attrs = Attrs(size: nat, mtime: nat, atime: nat, uid: nat)

  /** One entry of a `readdir` reply: its name, its `ls -l` style line and its attributes. */
  datatype FileEntry = FileEntry(filename: string, longname: string, attrs: Attrs)

  /** The `unix` part of a record: the symbolic and octal mode, owner and group. */
  datatype UnixMode = UnixMode(modeStat: string, modeOctal: int, uid: string, gid: string)

  /** `IFile`: the canonical description of a file or directory (times in milliseconds). */
  datatype FileRecord = FileRecord(
    kind: FileType,
    name: string,
    path: string,
    size: nat,
    ext: Option<string>,
    modifyAt: nat,
    accessAt: nat,
    createAt: Option<nat>,
    readable: bool,
    writeable: bool,
    unix: UnixMode)

  /** The fields `IFileStat` adds for a directory. */
  datatype DirectoryCounts = DirectoryCounts(fileCount: nat, directoryCount: nat, totalSize: int)

  /** `IFileStat`: a record, with the directory fields present only for a directory. */
  datatype FileStat = FileStat(file: FileRecord, directory: Option<DirectoryCounts>)

  /** Functions of other packages, left uninterpreted: Node's `path.join`, and
      `transformStatModeToOctal` and `transformOctalModeToStat` of the shared model package. */
  datatype Foreign = Foreign(
    join: (string, string) -> string,
    statModeToOctal: string -> int,
    octalModeToStat: string -> string)

  /** `path.extname(p).substr(1)`: the extension without its dot. It holds no dot and no
      separator, and `path.extname(p)` is either empty or a dot followed by it. */
  function Extension(p: string): (e: string)
    ensures '.' !in e && '/' !in e
    ensures Extname(p) == [] ==> e == []
    ensures Extname(p) != [] ==> Extname(p) == "." + e
  {
    var x := Extname(p);
    DropDot(x);
    Substr(x, 1, |x|)
  }

  /** Dropping the leading dot of an extension leaves a string with no dot and no separator. */
  lemma DropDot(x: string)
    requires x == [] || (x[0] == '.' && (forall i :: 0 < i < |x| ==> x[i] != '.') && '/' !in x)
    ensures var e := Substr(x, 1, |x|); '.' !in e && '/' !in e && (if x == [] then e == [] else x == "." + e)
  {
    if x != [] {
      var e := x[1..];
      assert x == [x[0]] + e;
      forall i | 0 <= i < |e|
        ensures e[i] != '.' && e[i] != '/'
      {
        assert e[i] == x[i + 1];
      }
    }
  }

  /** The extension of a stem of at least one character, a dot and a dot-free suffix is that
      suffix; a name whose only dot leads it has none. */
  lemma ExtensionOfName(stem: string, suffix: string)
    requires '/' !in stem && '.' !in suffix && '/' !in suffix
    ensures Extension(stem + "." + suffix) == if stem == [] then [] else suffix
  {
    if stem == [] {
      assert stem + "." + suffix == "." + suffix;
      DotfileHasNoExtname(suffix);
    } else {
      ExtnameOfStemAndSuffix(stem, suffix);
    }
  }

  /** A name without a dot, such as `Makefile`, has an empty extension. */
  lemma ExtensionOfDotFreeName(name: string)
    requires '.' !in name && '/' !in name
    ensures Extension(name) == []
  {
    BasenameOfSegment(name);
    LastIndexOfAbsent(name, '.');
  }

  /** The extension of a path is the extension of its basename. */
  lemma ExtensionOfBasename(p: string)
    ensures Extension(Basename(p)) == Extension(p)
  {
    BasenameIdempotent(p);
  }

  /** `String(id)`, as used for both the owner and the group field. */
  function IdString(id: nat): (s: string)
    ensures s != [] && forall i :: 0 <= i < |s| ==> '0' <= s[i] <= '9'
    ensures s[0] == '0' ==> s == "0"
    ensures DecimalValue(s) == id
  {
    DecimalRoundTrip(id);
    DecimalString(id)
  }
}
