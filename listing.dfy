/** `listFile`: a directory listing filtered by an optional keyword and normalised into
    records, with readability and writability taken from one pair of batched probes. */
module Listing {
  import opened Results
  import opened Sequences
  import opened JsString
  import opened Records
  import opened Probes

  /** The entry's name contains `keyword`. */
  function EntryMatches(keyword: string): FileEntry -> bool
  {
    (e: FileEntry) => Includes(e.filename, keyword)
  }

  /** The record's name contains `keyword`. */
  function RecordMatches(keyword: string): FileRecord -> bool
  {
    (r: FileRecord) => Includes(r.name, keyword)
  }

  /** The entries kept for a keyword (`keyword && keyword.trim()`, then a truthiness test):
      all of them when there is no keyword or it trims to nothing, otherwise exactly those
      whose name contains the trimmed keyword, in their original order. */
  function KeptEntries(list: seq<FileEntry>, keyword: Option<string>): (kept: seq<FileEntry>)
    ensures keyword.None? || Trim(keyword.value) == [] ==> kept == list
    ensures keyword.Some? && Trim(keyword.value) != [] ==>
      var t := Trim(keyword.value);
      && IsSubsequence(kept, list)
      && (forall i :: 0 <= i < |kept| ==> Includes(kept[i].filename, t))
      && (forall i :: 0 <= i < |list| && Includes(list[i].filename, t) ==> list[i] in kept)
  {
    match keyword
    case None => list
    case Some(k) =>
      var t := Trim(k);
      if t == [] then list else Filter(list, EntryMatches(t))
  }

  /** A keyword made only of white space keeps every entry. */
  lemma BlankKeywordKeepsAll(list: seq<FileEntry>, keyword: string)
    requires forall i :: 0 <= i < |keyword| ==> IsTrimmable(keyword[i])
    ensures KeptEntries(list, Some(keyword)) == list
  {
    TrimEmptyIff(keyword);
  }

  /** The kept entries hold each matching entry as often as the listing does. */
  lemma KeptEntriesCount(list: seq<FileEntry>, keyword: string)
    requires Trim(keyword) != []
    ensures forall e ::
      multiset(KeptEntries(list, Some(keyword)))[e] == if Includes(e.filename, Trim(keyword)) then multiset(list)[e] else 0
  {
    FilterCount(list, EntryMatches(Trim(keyword)));
  }

  /** The kind of an entry, from the first character of its long listing line. */
  function EntryKind(longname: string): (k: FileType)
    ensures k == Directory <==> |longname| > 0 && longname[0] == 'd'
  {
    if Substr(longname, 0, 1) == "d" then Directory else File
  }

  /** The symbolic mode: the nine characters after the type character of the long
      listing line, or as many of them as the line has. */
  function EntryModeStat(longname: string): (m: string)
    ensures |longname| >= 10 ==> m == longname[1..10]
    ensures |longname| < 10 ==> m == if longname == [] then [] else longname[1..]
  {
    Substr(longname, 1, 9)
  }

  /** One kept entry as a record. */
  function NormalizeEntry(targetPath: string, e: FileEntry, access: AccessSets, f: Foreign)
    : (r: FileRecord)
    ensures r.name == e.filename && r.path == f.join(targetPath, e.filename)
    ensures r.size == e.attrs.size
    ensures r.kind == Directory <==> |e.longname| > 0 && e.longname[0] == 'd'
    ensures r.kind == Directory <==> r.ext.None?
    ensures r.ext.Some? ==> r.ext.value == Extension(e.filename) && '.' !in r.ext.value
    ensures r.modifyAt == e.attrs.mtime * 1000 && r.accessAt == e.attrs.atime * 1000
    ensures r.createAt.None?
    ensures r.readable <==> e.filename in access.readables
    ensures r.writeable <==> e.filename in access.writables
    ensures r.unix.modeStat == EntryModeStat(e.longname)
    ensures r.unix.modeOctal == f.statModeToOctal(r.unix.modeStat)
    ensures r.unix.uid == r.unix.gid == IdString(e.attrs.uid)
  {
    var kind := EntryKind(e.longname);
    var modeStat := EntryModeStat(e.longname);
    var uid := IdString(e.attrs.uid);
    FileRecord(
      kind := kind,
      name := e.filename,
      path := f.join(targetPath, e.filename),
      size := e.attrs.size,
      ext := if kind != Directory then Some(Extension(e.filename)) else None,
      modifyAt := e.attrs.mtime * 1000,
      accessAt := e.attrs.atime * 1000,
      createAt := None,
      readable := e.filename in access.readables,
      writeable := e.filename in access.writables,
      unix := UnixMode(modeStat, f.statModeToOctal(modeStat), uid, uid))
  }

  /** `list.map(...)`: one record per entry, in the same order. */
  function NormalizeEntries(targetPath: string, es: seq<FileEntry>, access: AccessSets, f: Foreign)
    : (rs: seq<FileRecord>)
    ensures |rs| == |es|
    ensures forall i :: 0 <= i < |rs| ==> rs[i] == NormalizeEntry(targetPath, es[i], access, f)
  {
    if es == [] then []
    else [NormalizeEntry(targetPath, es[0], access, f)] + NormalizeEntries(targetPath, es[1..], access, f)
  }

  /** `listFile(targetPath, keyword)`, given the outcome of `readdir` on `targetPath`. */
  function ListFile(targetPath: string, keyword: Option<string>, readdir: Outcome<seq<FileEntry>>,
                    exec: Exec, f: Foreign): (r: Outcome<seq<FileRecord>>)
    ensures readdir.Rejected? ==> r == Rejected(readdir.reason)
    ensures readdir.Pending? ==> r.Pending?
    ensures readdir.Resolved? ==>
      var access := ChildrenAccess(targetPath, exec, f.join);
      && (r.Resolved? <==> access.Resolved?)
      && (access.Rejected? ==> r == Rejected(access.reason))
      && (access.Pending? ==> r.Pending?)
    ensures r.Resolved? ==>
      var kept := KeptEntries(readdir.value, keyword);
      var access := ChildrenAccess(targetPath, exec, f.join).value;
      && |r.value| == |kept|
      && forall i :: 0 <= i < |kept| ==> r.value[i] == NormalizeEntry(targetPath, kept[i], access, f)
  {
    match readdir
    case Rejected(e) => Rejected(e)
    case Pending => Pending
    case Resolved(list) =>
      var kept := KeptEntries(list, keyword);
      match ChildrenAccess(targetPath, exec, f.join)
      case Rejected(e) => Rejected(e)
      case Pending => Pending
      case Resolved(access) => Resolved(NormalizeEntries(targetPath, kept, access, f))
  }

  /** Normalising commutes with filtering by name, because a record keeps its entry's name. */
  lemma {:induction false} NormalizeFilterCommute(targetPath: string, es: seq<FileEntry>,
                                                  access: AccessSets, f: Foreign, t: string)
    ensures Filter(NormalizeEntries(targetPath, es, access, f), RecordMatches(t))
         == NormalizeEntries(targetPath, Filter(es, EntryMatches(t)), access, f)
    decreases |es|
  {
    if es != [] {
      NormalizeFilterCommute(targetPath, es[1..], access, f, t);
      var rs := NormalizeEntries(targetPath, es, access, f);
      assert rs[1..] == NormalizeEntries(targetPath, es[1..], access, f);
      assert RecordMatches(t)(rs[0]) == EntryMatches(t)(es[0]);
      var kept := Filter(es, EntryMatches(t));
      if EntryMatches(t)(es[0]) {
        assert kept == [es[0]] + Filter(es[1..], EntryMatches(t));
        assert kept[1..] == Filter(es[1..], EntryMatches(t));
      }
    }
  }

  /** A keyword narrows the listing to the records of the unfiltered listing whose name
      contains the trimmed keyword, in order; the probes and their outcome are the same. */
  lemma ListFileWithKeyword(targetPath: string, keyword: string, readdir: Outcome<seq<FileEntry>>,
                            exec: Exec, f: Foreign)
    requires Trim(keyword) != []
    ensures ListFile(targetPath, Some(keyword), readdir, exec, f).Resolved?
        <==> ListFile(targetPath, None, readdir, exec, f).Resolved?
    ensures ListFile(targetPath, None, readdir, exec, f).Resolved? ==>
      ListFile(targetPath, Some(keyword), readdir, exec, f).value
        == Filter(ListFile(targetPath, None, readdir, exec, f).value, RecordMatches(Trim(keyword)))
  {
    if readdir.Resolved? && ChildrenAccess(targetPath, exec, f.join).Resolved? {
      KeywordListing(targetPath, keyword, readdir.value, exec, f);
    }
  }

  lemma KeywordListing(targetPath: string, keyword: string, list: seq<FileEntry>, exec: Exec, f: Foreign)
    requires Trim(keyword) != []
    requires ChildrenAccess(targetPath, exec, f.join).Resolved?
    ensures ListFile(targetPath, Some(keyword), Resolved(list), exec, f).value
        == Filter(ListFile(targetPath, None, Resolved(list), exec, f).value, RecordMatches(Trim(keyword)))
  {
    var access := ChildrenAccess(targetPath, exec, f.join).value;
    ListFileAnswered(targetPath, None, list, exec, f);
    ListFileAnswered(targetPath, Some(keyword), list, exec, f);
    NormalizeFilterCommute(targetPath, list, access, f, Trim(keyword));
  }

  lemma ListFileAnswered(targetPath: string, keyword: Option<string>, list: seq<FileEntry>,
                         exec: Exec, f: Foreign)
    requires ChildrenAccess(targetPath, exec, f.join).Resolved?
    ensures ListFile(targetPath, keyword, Resolved(list), exec, f)
         == Resolved(NormalizeEntries(targetPath, KeptEntries(list, keyword),
                                      ChildrenAccess(targetPath, exec, f.join).value, f))
  {
  }

  /** Listing an empty directory whose probes answer gives no records. */
  lemma ListEmptyDirectory(targetPath: string, keyword: Option<string>, exec: Exec, f: Foreign)
    requires ChildrenAccess(targetPath, exec, f.join).Resolved?
    ensures ListFile(targetPath, keyword, Resolved([]), exec, f) == Resolved([])
  {
  }
}
