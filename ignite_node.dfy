/**
 * What GetNode and ListNodes make of the tool's output (pkg/node/ignite.go):
 * the node record GetNode fills in field by field, the trimming of every
 * printed value, the lenient conversion to the field's type, and the list
 * of names ListNodes reads from the `ps` output.
 */
module IgniteNode {
  import opened Wrappers
  import opened GoStrings
  import opened GoStrconv
  import opened IgniteCommands

  /** The part of config.Node that GetNode fills in; its other fields stay zero. */
  datatype ReportedSpec = ReportedSpec(cpus: int, memory: string, diskSize: string)

  /** data.NodeStatus. */
  datatype NodeStatus = NodeStatus(running: bool)

  /** data.Node: the name asked for, the reported spec and the status. */
  datatype Node = Node(name: string, spec: ReportedSpec, status: NodeStatus)

  /** The record GetNode starts from: the name, every other field zero. */
  function EmptyNode(name: string): Node
  {
    Node(name, ReportedSpec(0, "", ""), NodeStatus(false))
  }

  /**
   * The value a field query prints, as GetNode reads it: white space trimmed
   * off both ends, then one trailing newline removed, which after trimming
   * never remains.
   */
  function FieldValue(out: string): (v: string)
    ensures v == TrimSpace(out)
  {
    TrimSuffixNewlineAfterTrimSpace(out);
    TrimSuffix(TrimSpace(out), "\n")
  }

  /**
   * Stores the printed value of field `f`, converted to the field's kind:
   * strings are stored as they are, an int is stored only when ParseInt
   * accepts the value and a bool only when ParseBool does; otherwise the
   * field keeps what it had. No other field changes.
   */
  function Assign(node: Node, f: Field, value: string): (r: Node)
    ensures r.name == node.name
    ensures f != SpecCpus ==> r.spec.cpus == node.spec.cpus
    ensures f != SpecMemory ==> r.spec.memory == node.spec.memory
    ensures f != SpecDiskSize ==> r.spec.diskSize == node.spec.diskSize
    ensures f != StatusRunning ==> r.status == node.status
  {
    match f
    case SpecCpus =>
      (match ParseInt(value)
       case Some(i) => node.(spec := node.spec.(cpus := i))
       case None => node)
    case SpecMemory => node.(spec := node.spec.(memory := value))
    case SpecDiskSize => node.(spec := node.spec.(diskSize := value))
    case StatusRunning =>
      (match ParseBool(value)
       case Some(b) => node.(status := node.status.(running := b))
       case None => node)
  }

  /** Assignments to different fields can be made in either order. */
  lemma AssignCommutes(node: Node, f: Field, u: string, g: Field, v: string)
    requires f != g
    ensures Assign(Assign(node, f, u), g, v) == Assign(Assign(node, g, v), f, u)
  {
  }

  /** A string field takes the printed value, whatever it is. */
  lemma AssignStringField(node: Node, value: string)
    ensures Assign(node, SpecMemory, value).spec.memory == value
    ensures Assign(node, SpecDiskSize, value).spec.diskSize == value
  {
  }

  /** The CPU count changes exactly when the value parses as an int64. */
  lemma AssignCpusLenient(node: Node, value: string)
    ensures ParseInt(value).None? ==> Assign(node, SpecCpus, value) == node
    ensures ParseInt(value).Some? ==> Assign(node, SpecCpus, value).spec.cpus == ParseInt(value).value
  {
  }

  /** A CPU count printed in decimal, within int64, is read back exactly. */
  lemma AssignCpusItoa(node: Node, i: int)
    requires MinInt64 <= i <= MaxInt64
    ensures Assign(node, SpecCpus, Itoa(i)).spec.cpus == i
  {
    ParseIntItoa(i);
  }

  /**
   * The running flag is set to true exactly for the six spellings of true,
   * to false for the six spellings of false, and kept otherwise.
   */
  lemma AssignRunning(node: Node, value: string)
    ensures Assign(node, StatusRunning, value).status.running
      <==> (value in {"1", "t", "T", "TRUE", "true", "True"}
           || (node.status.running && value !in {"0", "f", "F", "FALSE", "false", "False"}))
  {
  }

  /** A printed bool is read back exactly. */
  lemma AssignRunningFormatBool(node: Node, b: bool)
    ensures Assign(node, StatusRunning, FormatBool(b)).status.running == b
  {
    ParseBoolFormatBool(b);
  }

  /** A value surrounded by white space, such as a line ending, is read without it. */
  lemma FieldValueTrimmed(pre: string, core: string, post: string)
    requires AllSpace(pre) && AllSpace(post)
    requires core == [] || (!IsSpace(core[0]) && !IsSpace(core[|core| - 1]))
    ensures FieldValue(pre + core + post) == core
  {
    TrimSpaceOf(pre, core, post);
  }

  /** A CPU count printed as the tool prints it, with a line ending, is read back. */
  lemma CpusFromLine(node: Node, i: int)
    requires MinInt64 <= i <= MaxInt64
    ensures Assign(node, SpecCpus, FieldValue(Itoa(i) + "\n")).spec.cpus == i
  {
    var s := Itoa(i);
    assert !IsSpace(s[0]) && !IsSpace(s[|s| - 1]);
    assert AllSpace("\n");
    FieldValueTrimmed([], s, "\n");
    assert [] + s + "\n" == s + "\n";
    AssignCpusItoa(node, i);
  }

  /** Any printed CPU count that does not parse leaves the count at zero. */
  lemma CpusUnparsed(name: string, out: string)
    requires ParseInt(FieldValue(out)).None?
    ensures Assign(EmptyNode(name), SpecCpus, FieldValue(out)).spec.cpus == 0
  {
    AssignCpusLenient(EmptyNode(name), FieldValue(out));
  }

  /** The printed text `not-a-number` leaves the CPU count at zero. */
  lemma CpusNotANumber(name: string, word: string)
    requires word == "not-a-number"
    ensures Assign(EmptyNode(name), SpecCpus, FieldValue(word + "\n")).spec.cpus == 0
  {
    assert AllSpace("\n");
    FieldValueTrimmed([], word, "\n");
    assert [] + word + "\n" == word + "\n";
    assert ParseInt(word) == None;
    CpusUnparsed(name, word + "\n");
  }

  // ----------------------------------------------------------------- listing

  /**
   * The names ListNodes asks GetNode about: none for empty output, otherwise
   * the trimmed output cut at every newline.
   */
  function ListedNames(out: string): (names: seq<string>)
    ensures out == [] <==> names == []
  {
    if |out| > 0 then Split(TrimSpace(out), '\n') else []
  }

  /** Output that is only white space still names one node, the empty name. */
  lemma ListedNamesBlank(out: string)
    requires |out| > 0 && AllSpace(out)
    ensures ListedNames(out) == [""]
  {
    TrimSpaceOf(out, [], []);
    assert out + [] + [] == out;
  }

  /**
   * One name per line, with a final line ending, is read back name by name,
   * provided no name contains a newline and the first and last names do not
   * start or end with white space.
   */
  lemma ListedNamesOfLines(names: seq<string>)
    requires |names| >= 1
    requires forall k :: 0 <= k < |names| ==> '\n' !in names[k]
    requires names[0] != [] && !IsSpace(names[0][0])
    requires names[|names| - 1] != [] && !IsSpace(names[|names| - 1][|names[|names| - 1]| - 1])
    ensures ListedNames(Join(names, '\n') + "\n") == names
  {
    var text := Join(names, '\n');
    JoinEnds(names, '\n');
    assert AllSpace("\n");
    TrimSpaceOf([], text, "\n");
    assert [] + text + "\n" == text + "\n";
    SplitJoin(names, '\n');
  }

  /** A join starts with the first part and ends with the last. */
  lemma {:induction false} JoinEnds(parts: seq<string>, sep: char)
    requires |parts| >= 1
    ensures var j := Join(parts, sep);
      && |j| >= |parts[0]| && j[..|parts[0]|] == parts[0]
      && |j| >= |parts[|parts| - 1]| && j[|j| - |parts[|parts| - 1]|..] == parts[|parts| - 1]
  {
    if |parts| > 1 {
      JoinEnds(parts[1..], sep);
      var rest := Join(parts[1..], sep);
      var j := parts[0] + [sep] + rest;
      assert Join(parts, sep) == j;
      assert j[..|parts[0]|] == parts[0];
      var last := parts[|parts| - 1];
      assert last == parts[1..][|parts[1..]| - 1];
      assert j[|j| - |last|..] == rest[|rest| - |last|..];
    }
  }
}
