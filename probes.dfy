/** The permission prober: the shell commands the provider sends over the exec channel to
    learn what is readable or writable, and how it reads their output back.

    The exec channel is an oracle `exec` from a command line to the outcome of `sshExec`:
    the first chunk of standard output, a rejection (the channel failed to open or wrote to
    standard error first), or nothing ever. */
module Probes {
  import opened Results
  import opened Sequences
  import opened JsString

  type Exec = string -> Outcome<string>

  datatype AccessMode = Read | Write

  /** The test operator of `[ ... ]`: `-r` or `-w`. */
  function TestFlag(m: AccessMode): string
  {
    match m
    case Read => "r"
    case Write => "w"
  }

  /** The `find` test: `-readable` or `-writable`. */
  function FindTest(m: AccessMode): string
  {
    match m
    case Read => "readable"
    case Write => "writable"
  }

  /** The command that prints, one per line, the names of the entries the glob `pattern`
      matches that pass the `m` test, without descending into them. The `\n` of the format
      is a real newline, as in the template literal it comes from. */
  function FindCommand(pattern: string, m: AccessMode): (c: string)
    ensures |c| == |pattern| + 41
    ensures OccursAt(c, "find ", 0) && OccursAt(c, pattern, 5)
    ensures OccursAt(c, FindTest(m), |pattern| + 19)
  {
    "find " + pattern + FindOptions(m)
  }

  /** What follows the pattern in a `find` probe. */
  function FindOptions(m: AccessMode): (o: string)
    ensures |o| == 36 && o[14] == FindTest(m)[0] && o[14..22] == FindTest(m)
  {
    " -maxdepth 0 -" + FindTest(m) + " -printf \"%f\n\""
  }

  /** The command that echoes whether `path` passes the `m` test. */
  function AccessCommand(path: string, m: AccessMode): (c: string)
    ensures |c| == |path| + 51
    ensures c[6] == TestFlag(m)[0]
    ensures OccursAt(c, path, 8)
  {
    AccessOpening(m) + path + AccessClosing()
  }

  /** What precedes the path in an access command. */
  function AccessOpening(m: AccessMode): (o: string)
    ensures |o| == 8 && o[6] == TestFlag(m)[0]
  {
    "if [ -" + TestFlag(m) + " "
  }

  /** What follows the path in an access command. */
  function AccessClosing(): string
  {
    " ]; then echo \"true\"; else echo \"false\"; fi"
  }

  /** Different paths or modes give different access commands, so each probe is a command
      of its own. */
  lemma AccessCommandInjective(p1: string, m1: AccessMode, p2: string, m2: AccessMode)
    requires AccessCommand(p1, m1) == AccessCommand(p2, m2)
    ensures p1 == p2 && m1 == m2
  {
    var o1, o2 := AccessOpening(m1), AccessOpening(m2);
    assert AccessCommand(p1, m1)[6] == o1[6];
    assert AccessCommand(p2, m2)[6] == o2[6];
    assert TestFlag(m1)[0] == TestFlag(m2)[0];
    ConcatCancel(o1, p1, AccessClosing(), p2, AccessClosing());
  }

  /** Different patterns or modes give different `find` commands. */
  lemma FindCommandInjective(g1: string, m1: AccessMode, g2: string, m2: AccessMode)
    requires FindCommand(g1, m1) == FindCommand(g2, m2)
    ensures g1 == g2 && m1 == m2
  {
    var o1, o2 := FindOptions(m1), FindOptions(m2);
    ConcatCancel("find ", g1, o1, g2, o2);
    assert FindTest(m1)[0] == FindTest(m2)[0];
  }

  /** The names a `find` probe printed: its output split on newlines, empty pieces dropped. */
  function ProbeNames(output: string): (names: seq<string>)
    ensures forall i :: 0 <= i < |names| ==> names[i] != [] && '\n' !in names[i]
  {
    SplitNonEmpty(output, '\n')
  }

  /** A probe that prints each name followed by a newline is read back as exactly those
      names, in order. */
  lemma ProbeNamesOfPrinted(names: seq<string>)
    requires forall i :: 0 <= i < |names| ==> names[i] != [] && '\n' !in names[i]
    ensures ProbeNames(Join(names + [[]], '\n')) == names
  {
    var parts := names + [[]];
    assert forall i :: 0 <= i < |parts| ==> '\n' !in parts[i] by {
      forall i | 0 <= i < |parts| ensures '\n' !in parts[i] {
        if i < |names| { assert parts[i] == names[i]; }
      }
    }
    SplitJoin(parts, '\n');
    FilterSnoc(names, [], IsNonEmpty);
    FilterKeepsAll(names, IsNonEmpty);
  }

  /** The names of the children of a directory that are readable and writable. */
  datatype AccessSets = AccessSets(readables: seq<string>, writables: seq<string>)

  /** Both `find` probes over the children of `targetPath`, the readable one first; the
      writable probe is only sent once the readable one has answered. */
  function ChildrenAccess(targetPath: string, exec: Exec, join: (string, string) -> string)
    : (r: Outcome<AccessSets>)
    ensures var pattern := join(targetPath, "*");
      var rd := exec(FindCommand(pattern, Read));
      var wr := exec(FindCommand(pattern, Write));
      && (rd.Rejected? ==> r == Rejected(rd.reason))
      && (rd.Resolved? && wr.Rejected? ==> r == Rejected(wr.reason))
      && (r.Pending? <==> rd.Pending? || (rd.Resolved? && wr.Pending?))
      && (r.Resolved? ==> rd.Resolved? && wr.Resolved?)
      && (rd.Resolved? && wr.Resolved? ==>
            r == Resolved(AccessSets(ProbeNames(rd.value), ProbeNames(wr.value))))
  {
    var pattern := join(targetPath, "*");
    match exec(FindCommand(pattern, Read))
    case Rejected(e) => Rejected(e)
    case Pending => Pending
    case Resolved(readOutput) =>
      match exec(FindCommand(pattern, Write))
      case Rejected(e) => Rejected(e)
      case Pending => Pending
      case Resolved(writeOutput) => Resolved(AccessSets(ProbeNames(readOutput), ProbeNames(writeOutput)))
  }

  /** `checkAccess(path, m)`: the access command's output coerced to a boolean with
      `Boolean(output)`, which is true for any non-empty string. */
  function CheckAccess(path: string, m: AccessMode, exec: Exec): (r: Outcome<bool>)
    ensures var reply := exec(AccessCommand(path, m));
      && (r.Resolved? <==> reply.Resolved?)
      && (r.Pending? <==> reply.Pending?)
      && (reply.Rejected? ==> r == Rejected(reply.reason))
      && (r.Resolved? ==> (r.value <==> reply.value != []))
  {
    match exec(AccessCommand(path, m))
    case Resolved(output) => Resolved(output != [])
    case Rejected(e) => Rejected(e)
    case Pending => Pending
  }

  /** Whatever the test decides, the command echoes a non-empty line, so an answered check is
      always true: the echoed `false` counts as true as well. */
  lemma CheckAccessIgnoresVerdict(path: string, m: AccessMode, exec: Exec)
    requires exec(AccessCommand(path, m)) == Resolved("true\n")
          || exec(AccessCommand(path, m)) == Resolved("false\n")
    ensures CheckAccess(path, m, exec) == Resolved(true)
  {
  }
}
