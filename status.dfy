/** `stat`: the record of one path, with the counts of a directory's immediate children.

    The record is assembled inside the callback of the transfer protocol's `stat`, which
    awaits the two access checks and, for a directory, the size probe and the child
    listing. A rejection of any of those awaited calls rejects only the callback's own
    promise, which nothing handles; the promise `stat` returned then never settles. */
module Status {
  import opened Results
  import opened Sequences
  import opened JsString
  import opened PosixPath
  import opened Records
  import opened Probes

  /** The attributes the transfer protocol's `stat` reports, with the result of
      `isDirectory()` on them. */
  datatype StatAttrs = StatAttrs(isDirectory: bool, mode: nat, size: nat, mtime: nat, atime: nat, uid: nat)

  /** One child as the client library's `list` reports it: its one-character type string
      (`d` for a directory, `-`, `l` and others otherwise) and its name. */
  datatype ListedChild = ListedChild(kind: string, name: string)

  /** The record `stat` builds before the directory fields are added. */
  function StatRecord(targetPath: string, attrs: StatAttrs, readable: bool, writeable: bool, f: Foreign)
    : (r: FileRecord)
    ensures r.kind == Directory <==> attrs.isDirectory
    ensures r.name == Basename(targetPath) && r.path == targetPath && r.size == attrs.size
    ensures r.kind == Directory <==> r.ext.None?
    ensures r.ext.Some? ==> r.ext.value == Extension(r.name) && '.' !in r.ext.value
    ensures r.modifyAt == attrs.mtime * 1000 && r.accessAt == attrs.atime * 1000
    ensures r.createAt.None?
    ensures r.readable == readable && r.writeable == writeable
    ensures r.unix.modeStat == f.octalModeToStat(IdString(attrs.mode))
    ensures r.unix.modeOctal == f.statModeToOctal(r.unix.modeStat)
    ensures r.unix.uid == r.unix.gid == IdString(attrs.uid)
  {
    ExtensionOfBasename(targetPath);
    var modeStat := f.octalModeToStat(IdString(attrs.mode));
    var uid := IdString(attrs.uid);
    FileRecord(
      kind := if attrs.isDirectory then Directory else File,
      name := Basename(targetPath),
      path := targetPath,
      size := attrs.size,
      ext := if !attrs.isDirectory then Some(Extension(targetPath)) else None,
      modifyAt := attrs.mtime * 1000,
      accessAt := attrs.atime * 1000,
      createAt := None,
      readable := readable,
      writeable := writeable,
      unix := UnixMode(modeStat, f.statModeToOctal(modeStat), uid, uid))
  }

  predicate IsDirectoryChild(c: ListedChild)
  {
    c.kind == "d"
  }

  /** The number of children whose type is `d`. */
  function DirectoryCount(children: seq<ListedChild>): nat
  {
    if children == [] then 0
    else DirectoryCount(children[..|children| - 1]) + if IsDirectoryChild(children[|children| - 1]) then 1 else 0
  }

  /** The number of children whose type is anything but `d`. */
  function FileCount(children: seq<ListedChild>): nat
  {
    if children == [] then 0
    else FileCount(children[..|children| - 1]) + if IsDirectoryChild(children[|children| - 1]) then 0 else 1
  }

  /** Every child is counted exactly once, as a directory or as a file. */
  lemma {:induction false} CountsPartition(children: seq<ListedChild>)
    ensures FileCount(children) + DirectoryCount(children) == |children|
  {
    if children != [] {
      CountsPartition(children[..|children| - 1]);
    }
  }

  /** The directory count is the length of the children filtered to directories. */
  lemma {:induction false} DirectoryCountIsFilter(children: seq<ListedChild>)
    ensures DirectoryCount(children) == |Filter(children, IsDirectoryChild)|
  {
    if children != [] {
      var init, last := children[..|children| - 1], children[|children| - 1];
      assert children == init + [last];
      DirectoryCountIsFilter(init);
      FilterSnoc(init, last, IsDirectoryChild);
    }
  }

  /** What `stat(targetPath)` settles to, given the outcomes of its remote calls: the
      transfer protocol's `stat`, the access checks over `exec`, the size probe and the
      client library's `list` of the directory. */
  function StatOutcome(targetPath: string, reply: Outcome<StatAttrs>, exec: Exec,
                       totalSize: Outcome<int>, children: Outcome<seq<ListedChild>>, f: Foreign)
    : (r: Outcome<FileStat>)
    ensures reply.Rejected? ==> r == Rejected(reply.reason)
    ensures reply.Pending? ==> r.Pending?
    ensures r.Resolved? ==>
      var readable := CheckAccess(targetPath, Read, exec);
      var writeable := CheckAccess(targetPath, Write, exec);
      && reply.Resolved? && readable.Resolved? && writeable.Resolved?
      && r.value.file == StatRecord(targetPath, reply.value, readable.value, writeable.value, f)
    ensures reply.Resolved? && CheckAccess(targetPath, Read, exec).Resolved?
         && CheckAccess(targetPath, Write, exec).Resolved?
         && (reply.value.isDirectory ==> totalSize.Resolved? && children.Resolved?)
      ==> r.Resolved?
  {
    match reply
    case Rejected(e) => Rejected(e)
    case Pending => Pending
    case Resolved(attrs) =>
      var readable := CheckAccess(targetPath, Read, exec);
      var writeable := CheckAccess(targetPath, Write, exec);
      if !readable.Resolved? || !writeable.Resolved? then Pending
      else
        var file := StatRecord(targetPath, attrs, readable.value, writeable.value, f);
        if !attrs.isDirectory then Resolved(FileStat(file, None))
        else if !totalSize.Resolved? || !children.Resolved? then Pending
        else
          var cs := children.value;
          Resolved(FileStat(file, Some(DirectoryCounts(FileCount(cs), DirectoryCount(cs), totalSize.value))))
  }

  /** The `forEach` over a directory's children: both counters start at zero and each child
      adds one to the directory counter when its type is `d` and to the file counter
      otherwise. */
  method CountChildren(cs: seq<ListedChild>) returns (fileCount: nat, directoryCount: nat)
    ensures fileCount == FileCount(cs) && directoryCount == DirectoryCount(cs)
  {
    fileCount, directoryCount := 0, 0;
    var i := 0;
    while i < |cs|
      invariant 0 <= i <= |cs|
      invariant directoryCount == DirectoryCount(cs[..i])
      invariant fileCount == FileCount(cs[..i])
    {
      assert cs[..i + 1][..i] == cs[..i];
      if cs[i].kind == "d" {
        directoryCount := directoryCount + 1;
      } else {
        fileCount := fileCount + 1;
      }
      i := i + 1;
    }
    assert cs[..|cs|] == cs;
  }

  /** `stat(targetPath)`: builds the record, then for a directory adds the size probe's
      result and the counts of its children. */
  method Stat(targetPath: string, reply: Outcome<StatAttrs>, exec: Exec,
              totalSize: Outcome<int>, children: Outcome<seq<ListedChild>>, f: Foreign)
    returns (r: Outcome<FileStat>)
    ensures r == StatOutcome(targetPath, reply, exec, totalSize, children, f)
  {
    if reply.Rejected? {
      return Rejected(reply.reason);
    }
    if reply.Pending? {
      return Pending;
    }
    var attrs := reply.value;
    var readable := CheckAccess(targetPath, Read, exec);
    if !readable.Resolved? {
      return Pending;
    }
    var writeable := CheckAccess(targetPath, Write, exec);
    if !writeable.Resolved? {
      return Pending;
    }
    var file := StatRecord(targetPath, attrs, readable.value, writeable.value, f);
    if !attrs.isDirectory {
      return Resolved(FileStat(file, None));
    }
    if !totalSize.Resolved? || !children.Resolved? {
      return Pending;
    }
    var fileCount, directoryCount := CountChildren(children.value);
    r := Resolved(FileStat(file, Some(DirectoryCounts(fileCount, directoryCount, totalSize.value))));
  }

  /** A settled stat of a directory carries the counts, and they add up to the number of
      children listed, the directory count being the number of children of type `d`; a
      settled stat of anything else carries no directory fields. */
  lemma StatDirectoryFields(targetPath: string, reply: Outcome<StatAttrs>, exec: Exec,
                            totalSize: Outcome<int>, children: Outcome<seq<ListedChild>>, f: Foreign)
    requires StatOutcome(targetPath, reply, exec, totalSize, children, f).Resolved?
    ensures var s := StatOutcome(targetPath, reply, exec, totalSize, children, f).value;
      && reply.Resolved?
      && (s.directory.Some? <==> reply.value.isDirectory)
      && (s.directory.Some? ==>
            (&& children.Resolved? && totalSize.Resolved?
             && s.directory.value.fileCount + s.directory.value.directoryCount == |children.value|
             && s.directory.value.directoryCount == |Filter(children.value, IsDirectoryChild)|
             && s.directory.value.totalSize == totalSize.value))
  {
    if children.Resolved? {
      CountsPartition(children.value);
      DirectoryCountIsFilter(children.value);
    }
  }

  /** For anything but a directory the size probe and the child listing play no part. */
  lemma StatOfFileIgnoresDirectoryProbes(targetPath: string, attrs: StatAttrs, exec: Exec,
                                         size1: Outcome<int>, children1: Outcome<seq<ListedChild>>,
                                         size2: Outcome<int>, children2: Outcome<seq<ListedChild>>,
                                         f: Foreign)
    requires !attrs.isDirectory
    ensures StatOutcome(targetPath, Resolved(attrs), exec, size1, children1, f)
         == StatOutcome(targetPath, Resolved(attrs), exec, size2, children2, f)
  {
  }

  /** Once the transfer protocol has answered, a failed access check, size probe or child
      listing is never reported: the call stays pending instead of failing. */
  lemma StatProbeFailureNeverSettles(targetPath: string, attrs: StatAttrs, exec: Exec,
                                     totalSize: Outcome<int>, children: Outcome<seq<ListedChild>>, f: Foreign)
    ensures !StatOutcome(targetPath, Resolved(attrs), exec, totalSize, children, f).Rejected?
    ensures exec(AccessCommand(targetPath, Read)).Rejected? || exec(AccessCommand(targetPath, Write)).Rejected?
      ==> StatOutcome(targetPath, Resolved(attrs), exec, totalSize, children, f).Pending?
    ensures attrs.isDirectory && (totalSize.Rejected? || children.Rejected?)
      ==> StatOutcome(targetPath, Resolved(attrs), exec, totalSize, children, f).Pending?
  {
  }

  /** A settled stat is readable and writable whenever the access commands answered, even
      when they echoed `false`. */
  lemma StatAccessFromEcho(targetPath: string, attrs: StatAttrs, exec: Exec,
                           totalSize: Outcome<int>, children: Outcome<seq<ListedChild>>, f: Foreign)
    requires exec(AccessCommand(targetPath, Read)) == Resolved("false\n")
    requires exec(AccessCommand(targetPath, Write)) == Resolved("false\n")
    requires !attrs.isDirectory
    ensures StatOutcome(targetPath, Resolved(attrs), exec, totalSize, children, f).Resolved?
    ensures var s := StatOutcome(targetPath, Resolved(attrs), exec, totalSize, children, f).value;
      s.file.readable && s.file.writeable
  {
  }
}
