/**
 * The Ignite node manager (IgniteNodeManager in pkg/node/ignite.go). It holds
 * no state; each operation builds `ignite` command lines, runs them through
 * `sudo` and reads their output.
 *
 * Running a command is an oracle: a `Tool` maps the argument list given to
 * `sudo` to what happened. It is a plain function of the command line.
 * Within CreateNodes, DeleteNodes and one GetNode no command line runs twice
 * (CreateArgvsDistinct, DeleteArgvsDistinct, QueryArgvsDistinct). ListNodes
 * reads a name listed twice twice, with the same commands; the model assumes
 * the tool answers identical queries alike within one ListNodes call.
 */
module IgniteManager {
  import opened Wrappers
  import opened GoStrings
  import opened IgniteCommands
  import opened IgniteNode

  /**
   * What running one command gives: it could not be started, it ran and
   * failed (a non-zero exit), or it ran and succeeded with this output.
   */
  datatype Reply = NotStarted | Failed | Succeeded(stdout: string)

  type Tool = Argv -> Reply

  /**
   * The error an operation returns: the command line whose start, run or
   * output failed. Rendering a command never fails (RunText, DeleteText), so
   * the template errors of the Go code cannot occur and are not modelled.
   */
  datatype Error = CommandFailed(argv: Argv)

  /** The number of loop iterations for `1 <= i <= count`. */
  function Count(node: NodeConfig): nat
  {
    if node.count > 0 then node.count else 0
  }

  // --------------------------------------------------------------- creating

  /** The names of the nodes of one type, ordinals 1 to `count`. */
  function NodeNames(node: NodeConfig, nodeType: string): (names: seq<string>)
    ensures |names| == Count(node)
    ensures forall k :: 0 <= k < |names| ==> names[k] == NodeName(node.cluster.name, nodeType, k + 1)
  {
    seq(Count(node), k => NodeName(node.cluster.name, nodeType, k + 1))
  }

  /** The names of the nodes of one type are all different. */
  lemma NodeNamesUnique(node: NodeConfig, nodeType: string)
    ensures var names := NodeNames(node, nodeType);
      forall k, l :: 0 <= k < l < |names| ==> names[k] != names[l]
  {
    var names := NodeNames(node, nodeType);
    forall k, l | 0 <= k < l < |names|
      ensures names[k] != names[l]
    {
      NodeNamesDistinct(node.cluster.name, nodeType, k + 1, l + 1);
    }
  }

  /**
   * `create(i)` is the create command line of ordinal `i`. StartAll carries
   * it as this function value so that its loop does not unfold the template
   * rendering; only CreateCommand, which renders, relates it to CreateArgv.
   */
  ghost predicate Creates(node: NodeConfig, nodeType: string, create: int -> Argv)
  {
    forall i {:trigger CreateArgv(node, nodeType, i)} :: create(i) == CreateArgv(node, nodeType, i)
  }

  /** Renders the create command of ordinal `i` and cuts it at every single space. */
  method CreateCommand(node: NodeConfig, nodeType: string, i: int, ghost create: int -> Argv)
    returns (argv: Argv)
    requires Creates(node, nodeType, create)
    ensures argv == create(i)
  {
    var text := RunText(node, nodeType, i);
    argv := Split(text, ' ');
    assert argv == CreateArgv(node, nodeType, i);
  }

  /**
   * Renders and starts the create commands of ordinals 1, 2, ... in order,
   * stopping with an error at the first one that cannot be started.
   */
  method StartAll(nodeType: string, node: NodeConfig, tool: Tool, ghost create: int -> Argv)
    returns (err: Option<Error>, issued: seq<Argv>)
    requires Creates(node, nodeType, create)
    ensures |issued| <= Count(node)
    ensures forall k :: 0 <= k < |issued| ==> issued[k] == create(k + 1)
    ensures forall k :: 0 <= k < |issued| - 1 ==> tool(issued[k]) != NotStarted
    ensures err.None? <==> |issued| == Count(node) && forall k :: 0 <= k < |issued| ==> tool(issued[k]) != NotStarted
    ensures err.Some? ==>
      && |issued| > 0 && tool(issued[|issued| - 1]) == NotStarted
      && err.value == CommandFailed(issued[|issued| - 1])
  {
    issued := [];
    var i := 1;
    while i <= node.count
      invariant 1 <= i && |issued| == i - 1 <= Count(node)
      invariant forall k :: 0 <= k < |issued| ==> issued[k] == create(k + 1)
      invariant forall k :: 0 <= k < |issued| ==> tool(issued[k]) != NotStarted
    {
      var argv := CreateCommand(node, nodeType, i, create);
      issued := issued + [argv];
      if tool(argv) == NotStarted {
        assert issued[|issued| - 1] == argv;
        return Some(CommandFailed(argv)), issued;
      }
      i := i + 1;
    }
    err := None;
  }

  /**
   * Waits for every started command, in order, and logs the name of each
   * node whose command failed; `names[k]` is the node `issued[k]` creates.
   */
  method WaitAll(issued: seq<Argv>, names: seq<string>, tool: Tool) returns (logged: set<string>)
    requires |names| == |issued|
    requires forall k, l :: 0 <= k < l < |names| ==> names[k] != names[l]
    ensures forall k :: 0 <= k < |names| ==> (names[k] in logged <==> tool(issued[k]) == Failed)
    ensures forall n :: n in logged ==> exists k :: 0 <= k < |names| && n == names[k] && tool(issued[k]) == Failed
  {
    logged := {};
    var j := 0;
    while j < |issued|
      invariant 0 <= j <= |issued|
      invariant forall k :: 0 <= k < j ==> (names[k] in logged <==> tool(issued[k]) == Failed)
      invariant forall n :: n in logged ==> exists k :: 0 <= k < j && n == names[k] && tool(issued[k]) == Failed
    {
      if tool(issued[j]) == Failed {
        logged := logged + {names[j]};
      }
      j := j + 1;
    }
  }

  /**
   * Creates the `count` nodes of one type: starts every create command in
   * order, returning at the first one that cannot be started, and otherwise
   * waits for all of them. A command that starts but fails is only logged,
   * by node name, from the goroutine that waits for it. `logged` is what
   * those goroutines log: after a start failure nothing waits for them, and
   * they log the failures of the commands already started after CreateNodes
   * has returned.
   */
  method CreateNodes(nodeType: string, node: NodeConfig, tool: Tool)
    returns (err: Option<Error>, issued: seq<Argv>, logged: set<string>)
    ensures |issued| <= Count(node)
    ensures forall k :: 0 <= k < |issued| ==> issued[k] == CreateArgv(node, nodeType, k + 1)
    ensures forall k :: 0 <= k < |issued| - 1 ==> tool(issued[k]) != NotStarted
    ensures err.None? <==> |issued| == Count(node) && forall k :: 0 <= k < |issued| ==> tool(issued[k]) != NotStarted
    ensures err.Some? ==>
      && |issued| > 0 && tool(issued[|issued| - 1]) == NotStarted
      && err.value == CommandFailed(issued[|issued| - 1])
    ensures forall k :: 0 <= k < |issued| ==> (NodeNames(node, nodeType)[k] in logged <==> tool(issued[k]) == Failed)
    ensures forall n :: n in logged ==>
      exists k :: 0 <= k < |issued| && n == NodeNames(node, nodeType)[k] && tool(issued[k]) == Failed
  {
    NodeNamesUnique(node, nodeType);
    err, issued, logged := CreateAll(nodeType, node, tool, i => CreateArgv(node, nodeType, i), NodeNames(node, nodeType));
  }

  /**
   * CreateNodes over the create command of each ordinal, `create`, and the
   * name of each node, `names`: starts the commands, then waits for the ones
   * that started.
   */
  method CreateAll(nodeType: string, node: NodeConfig, tool: Tool, ghost create: int -> Argv, names: seq<string>)
    returns (err: Option<Error>, issued: seq<Argv>, logged: set<string>)
    requires Creates(node, nodeType, create)
    requires |names| == Count(node)
    requires forall k, l :: 0 <= k < l < |names| ==> names[k] != names[l]
    ensures |issued| <= Count(node)
    ensures forall k :: 0 <= k < |issued| ==> issued[k] == create(k + 1)
    ensures forall k :: 0 <= k < |issued| - 1 ==> tool(issued[k]) != NotStarted
    ensures err.None? <==> |issued| == Count(node) && forall k :: 0 <= k < |issued| ==> tool(issued[k]) != NotStarted
    ensures err.Some? ==>
      && |issued| > 0 && tool(issued[|issued| - 1]) == NotStarted
      && err.value == CommandFailed(issued[|issued| - 1])
    ensures forall k :: 0 <= k < |issued| ==> (names[k] in logged <==> tool(issued[k]) == Failed)
    ensures forall n :: n in logged ==> exists k :: 0 <= k < |issued| && n == names[k] && tool(issued[k]) == Failed
  {
    err, issued := StartAll(nodeType, node, tool, create);
    var started := if err.Some? then |issued| - 1 else |issued|;
    logged := WaitStarted(issued, names, started, tool);
  }

  /**
   * Waits for the first `started` commands of `issued`, the ones that
   * started, and logs the names of the nodes whose command failed; the
   * commands after them did not fail, so over all of `issued` the nodes
   * logged are exactly those whose command failed.
   */
  method WaitStarted(issued: seq<Argv>, names: seq<string>, started: nat, tool: Tool) returns (logged: set<string>)
    requires started <= |issued| <= |names|
    requires forall k, l :: 0 <= k < l < |names| ==> names[k] != names[l]
    requires forall k :: started <= k < |issued| ==> tool(issued[k]) != Failed
    ensures forall k :: 0 <= k < |issued| ==> (names[k] in logged <==> tool(issued[k]) == Failed)
    ensures forall n :: n in logged ==> exists k :: 0 <= k < |issued| && n == names[k] && tool(issued[k]) == Failed
  {
    logged := WaitAll(issued[..started], names[..started], tool);
    forall k | 0 <= k < started
      ensures names[k] in logged <==> tool(issued[k]) == Failed
    {
      assert names[..started][k] == names[k] && issued[..started][k] == issued[k];
    }
    forall n | n in logged
      ensures exists k :: 0 <= k < |issued| && n == names[k] && tool(issued[k]) == Failed
    {
      var j :| 0 <= j < started && n == names[..started][j] && tool(issued[..started][j]) == Failed;
      assert n == names[j] && tool(issued[j]) == Failed;
    }
  }

  // --------------------------------------------------------------- deleting

  /** Deletes one node by running its rendered delete command; any failure is returned. */
  method DeleteNode(name: string, tool: Tool) returns (err: Option<Error>, argv: Argv)
    ensures argv == DeleteArgv(name)
    ensures err.None? <==> tool(argv).Succeeded?
    ensures err.Some? ==> err.value == CommandFailed(argv)
  {
    var text := DeleteText(name);
    argv := Split(text, ' ');
    if tool(argv).Succeeded? {
      err := None;
    } else {
      err := Some(CommandFailed(argv));
    }
  }

  /**
   * `delete(i)` is the delete command line of the node of ordinal `i`; as
   * with Creates, only DeleteOrdinal relates it to the rendered command.
   */
  ghost predicate Deletes(clusterName: string, nodeType: string, delete: int -> Argv)
  {
    forall i {:trigger NodeName(clusterName, nodeType, i)} ::
      delete(i) == DeleteArgv(NodeName(clusterName, nodeType, i))
  }

  /** Deletes the node of ordinal `i` with DeleteNode. */
  method DeleteOrdinal(clusterName: string, nodeType: string, i: int, tool: Tool, ghost delete: int -> Argv)
    returns (err: Option<Error>, argv: Argv)
    requires Deletes(clusterName, nodeType, delete)
    ensures argv == delete(i)
    ensures err.None? <==> tool(argv).Succeeded?
    ensures err.Some? ==> err.value == CommandFailed(argv)
  {
    err, argv := DeleteNode(NodeName(clusterName, nodeType, i), tool);
  }

  /**
   * Deletes the nodes of ordinals 1, 2, ... in order, stopping at the first
   * error, which it returns unchanged.
   */
  method DeleteEach(nodeType: string, node: NodeConfig, tool: Tool, ghost delete: int -> Argv)
    returns (err: Option<Error>, issued: seq<Argv>)
    requires Deletes(node.cluster.name, nodeType, delete)
    ensures |issued| <= Count(node)
    ensures forall k :: 0 <= k < |issued| ==> issued[k] == delete(k + 1)
    ensures forall k :: 0 <= k < |issued| - 1 ==> tool(issued[k]).Succeeded?
    ensures err.None? <==> |issued| == Count(node) && forall k :: 0 <= k < |issued| ==> tool(issued[k]).Succeeded?
    ensures err.Some? ==>
      |issued| > 0 && !tool(issued[|issued| - 1]).Succeeded? && err.value == CommandFailed(issued[|issued| - 1])
  {
    issued := [];
    var j := 1;
    while j <= node.count
      invariant 1 <= j && |issued| == j - 1 <= Count(node)
      invariant forall k :: 0 <= k < |issued| ==> issued[k] == delete(k + 1)
      invariant forall k :: 0 <= k < |issued| ==> tool(issued[k]).Succeeded?
    {
      var e, argv := DeleteOrdinal(node.cluster.name, nodeType, j, tool, delete);
      issued := issued + [argv];
      if e.Some? {
        assert issued[|issued| - 1] == argv;
        return e, issued;
      }
      j := j + 1;
    }
    err := None;
  }

  /**
   * Deletes the nodes of one type, ordinals 1, 2, ... in order, and returns
   * the first error unchanged, without trying the nodes after it.
   */
  method DeleteNodes(nodeType: string, node: NodeConfig, tool: Tool)
    returns (err: Option<Error>, issued: seq<Argv>)
    ensures |issued| <= Count(node)
    ensures forall k :: 0 <= k < |issued| ==> issued[k] == DeleteArgv(NodeName(node.cluster.name, nodeType, k + 1))
    ensures forall k :: 0 <= k < |issued| - 1 ==> tool(issued[k]).Succeeded?
    ensures err.None? <==> |issued| == Count(node) && forall k :: 0 <= k < |issued| ==> tool(issued[k]).Succeeded?
    ensures err.Some? ==>
      |issued| > 0 && !tool(issued[|issued| - 1]).Succeeded? && err.value == CommandFailed(issued[|issued| - 1])
  {
    err, issued := DeleteEach(nodeType, node, tool, i => DeleteArgv(NodeName(node.cluster.name, nodeType, i)));
  }

  // ---------------------------------------------------------------- reading

  /** What a command printed, if it succeeded. */
  function Output(reply: Reply): string
  {
    if reply.Succeeded? then reply.stdout else ""
  }

  /** The value GetNode reads for field `f`, querying with the presence check `cmdArgs`. */
  function Printed(cmdArgs: Argv, tool: Tool, f: Field): string
  {
    FieldValue(Output(tool(WithFilter(cmdArgs, f))))
  }

  /** What the field queries built on `cmdArgs` output, field by field. */
  function PrintedBy(cmdArgs: Argv, tool: Tool): Field -> string
  {
    f => Printed(cmdArgs, tool, f)
  }

  const AllFields: set<Field> := {SpecCpus, SpecMemory, SpecDiskSize, StatusRunning}

  /**
   * The record GetNode holds after reading the fields in `done`, in
   * whatever order, where `value(f)` is what was printed for `f`: each of
   * them holds what assigning its value gives, the others are zero.
   */
  function Reported(name: string, value: Field -> string, done: set<Field>): (r: Node)
    ensures r.name == name
    ensures done == {} ==> r == EmptyNode(name)
  {
    var empty := EmptyNode(name);
    Node(name,
      ReportedSpec(
        if SpecCpus in done then Assign(empty, SpecCpus, value(SpecCpus)).spec.cpus else 0,
        if SpecMemory in done then value(SpecMemory) else "",
        if SpecDiskSize in done then value(SpecDiskSize) else ""),
      NodeStatus(
        if StatusRunning in done then Assign(empty, StatusRunning, value(StatusRunning)).status.running
        else false))
  }

  /** Reading one more field, in any order, extends the record the same way. */
  lemma ReportedStep(name: string, value: Field -> string, done: set<Field>, f: Field)
    requires f !in done
    ensures Assign(Reported(name, value, done), f, value(f)) == Reported(name, value, done + {f})
  {
    match f
    case SpecCpus =>
      AssignCpusLenient(Reported(name, value, done), value(f));
      AssignCpusLenient(EmptyNode(name), value(f));
    case SpecMemory =>
    case SpecDiskSize =>
    case StatusRunning =>
      AssignRunning(Reported(name, value, done), value(f));
      AssignRunning(EmptyNode(name), value(f));
  }

  /**
   * The record after assigning the values of the fields in `order`, one
   * after the other, to the empty record of node `name`.
   */
  function Applied(name: string, value: Field -> string, order: seq<Field>): (node: Node)
    ensures node.name == name
  {
    if order == [] then EmptyNode(name)
    else Assign(Applied(name, value, order[..|order| - 1]), order[|order| - 1], value(order[|order| - 1]))
  }

  /**
   * The order in which Go's map iteration visits the fields does not
   * matter: assigning the fields of `order`, none twice, gives the record
   * of the set of those fields.
   */
  lemma {:induction false} AppliedReported(name: string, value: Field -> string, order: seq<Field>, done: set<Field>)
    requires forall k, l :: 0 <= k < l < |order| ==> order[k] != order[l]
    requires forall f :: f in done <==> f in order
    ensures Applied(name, value, order) == Reported(name, value, done)
  {
    if order == [] {
      assert done == {};
    } else {
      var init, last := order[..|order| - 1], order[|order| - 1];
      var before := done - {last};
      forall f
        ensures f in before <==> f in init
      {
        if f in init {
          var k :| 0 <= k < |init| && init[k] == f;
          assert order[k] == f;
        }
        if f in order && f != last {
          var k :| 0 <= k < |order| && order[k] == f;
          assert k < |order| - 1;
        }
      }
      AppliedReported(name, value, init, before);
      ReportedStep(name, value, before, last);
      assert before + {last} == done;
    }
  }

  /** The fields of group `g`, listed once each. */
  function GroupList(g: Group): (keys: seq<Field>)
    ensures forall f :: f in keys <==> GroupOf(f) == g
    ensures forall k, l :: 0 <= k < l < |keys| ==> keys[k] != keys[l]
  {
    match g
    case SpecGroup => [SpecCpus, SpecMemory, SpecDiskSize]
    case StatusGroup => [StatusRunning]
  }

  /** Every field is in AllFields. */
  lemma AllFieldsListed(f: Field)
    ensures f in AllFields
  {
    match f
    case SpecCpus =>
    case SpecMemory =>
    case SpecDiskSize =>
    case StatusRunning =>
  }

  /** The record GetNode returns for node `name`. */
  function Fetched(name: string, tool: Tool): (r: Node)
    ensures r.name == name
  {
    Reported(name, PrintedBy(PresenceArgv(name), tool), AllFields)
  }

  /** The presence check `cmdArgs` and every field query built on it succeed. */
  predicate Answers(cmdArgs: Argv, tool: Tool)
  {
    tool(cmdArgs).Succeeded? && forall f: Field :: tool(WithFilter(cmdArgs, f)).Succeeded?
  }

  /** The node exists and every field query about it succeeds. */
  predicate Readable(name: string, tool: Tool)
  {
    Answers(PresenceArgv(name), tool)
  }

  /** The field queries for `order`, one command line per field. */
  function Queries(cmdArgs: Argv, order: seq<Field>): (argvs: seq<Argv>)
    ensures |argvs| == |order|
    ensures forall k :: 0 <= k < |order| ==> argvs[k] == WithFilter(cmdArgs, order[k])
  {
    if order == [] then [] else [WithFilter(cmdArgs, order[0])] + Queries(cmdArgs, order[1..])
  }

  /** The two groups of fields GetNode fills in, Spec and Status. */
  datatype Group = SpecGroup | StatusGroup

  function GroupOf(f: Field): Group
  {
    if f == StatusRunning then StatusGroup else SpecGroup
  }

  /** The presence check and the first `m` queries of `order` all succeeded. */
  lemma RunsSucceeded(cmdArgs: Argv, tool: Tool, order: seq<Field>, m: nat)
    requires m <= |order|
    requires tool(cmdArgs).Succeeded?
    requires forall k :: 0 <= k < m ==> tool(WithFilter(cmdArgs, order[k])).Succeeded?
    ensures var issued := [cmdArgs] + Queries(cmdArgs, order);
      forall k :: 0 <= k <= m ==> tool(issued[k]).Succeeded?
  {
  }

  /**
   * `argv` is an error GetNode can return for node `name`: a failed command
   * that is the presence check when that check fails, and otherwise one of
   * the name's field queries.
   */
  predicate GetNodeError(argv: Argv, name: string, tool: Tool)
  {
    && !tool(argv).Succeeded?
    && if tool(PresenceArgv(name)).Succeeded? then exists f: Field :: argv == QueryArgv(name, f)
       else argv == PresenceArgv(name)
  }

  /**
   * `value(f)` is what the query for field `f` built on `cmdArgs` prints,
   * trimmed; `query(f)` is that query, and `record(order)` the record after
   * assigning, in `order`, those values. The read methods below carry all
   * three as function values, so that their loops unfold neither the
   * filters nor the conversions; only ReadField, which queries and assigns,
   * relates them to Printed, WithFilter and Applied.
   */
  ghost predicate Reads(name: string, cmdArgs: Argv, tool: Tool, value: Field -> string,
                        query: Field -> Argv, record: seq<Field> -> Node)
  {
    && (forall f {:trigger Printed(cmdArgs, tool, f)} :: value(f) == Printed(cmdArgs, tool, f))
    && (forall f {:trigger WithFilter(cmdArgs, f)} :: query(f) == WithFilter(cmdArgs, f))
    && (forall order {:trigger Applied(name, value, order)} :: record(order) == Applied(name, value, order))
  }

  /**
   * Queries field `f` with `cmdArgs` plus the field's filter and, when the
   * query succeeds, assigns its trimmed output to the record; `prior` lists
   * the fields read into `node` so far.
   */
  method ReadField(name: string, cmdArgs: Argv, tool: Tool, f: Field, node: Node,
                   ghost prior: seq<Field>, ghost value: Field -> string,
                   ghost query: Field -> Argv, ghost record: seq<Field> -> Node)
    returns (err: Option<Error>, node': Node)
    requires Reads(name, cmdArgs, tool, value, query, record)
    requires node == record(prior)
    ensures err.None? <==> tool(query(f)).Succeeded?
    ensures err.Some? ==> err.value == CommandFailed(query(f))
    ensures err.None? ==> node' == record(prior + [f])
  {
    var argv := WithFilter(cmdArgs, f);
    if !tool(argv).Succeeded? {
      return Some(CommandFailed(argv)), node;
    }
    assert (prior + [f])[..|prior + [f]| - 1] == prior;
    node' := Assign(node, f, FieldValue(Output(tool(argv))));
    assert value(f) == Printed(cmdArgs, tool, f);
    assert node == Applied(name, value, prior);
    assert node' == Applied(name, value, prior + [f]);
    err := None;
  }

  /**
   * Queries the fields of group `g` one by one, in the order Go's map
   * iteration happens to take, assigning each printed value to the record;
   * the first failing query is returned. `read` lists the fields queried;
   * `before` the fields read into `node` so far.
   */
  method ReadGroup(name: string, cmdArgs: Argv, tool: Tool, g: Group, node: Node,
                   ghost before: seq<Field>, ghost value: Field -> string,
                   ghost query: Field -> Argv, ghost record: seq<Field> -> Node)
    returns (err: Option<Error>, node': Node, read: seq<Field>)
    requires Reads(name, cmdArgs, tool, value, query, record)
    requires node == record(before)
    ensures forall k, l :: 0 <= k < l < |read| ==> read[k] != read[l]
    ensures forall k :: 0 <= k < |read| ==> GroupOf(read[k]) == g
    ensures forall k :: 0 <= k < |read| - 1 ==> tool(query(read[k])).Succeeded?
    ensures err.None? ==>
      && (forall f :: f in read <==> GroupOf(f) == g)
      && (forall f :: f in read ==> tool(query(f)).Succeeded?)
      && node' == record(before + read)
    ensures err.Some? ==>
      && |read| > 0 && !tool(query(read[|read| - 1])).Succeeded?
      && err.value == CommandFailed(query(read[|read| - 1]))
  {
    // Go's map iteration takes the group's fields in an unspecified order
    ghost var listed := GroupList(g);
    var keys: seq<Field> :| (forall f :: f in keys <==> GroupOf(f) == g)
      && forall k, l :: 0 <= k < l < |keys| ==> keys[k] != keys[l];
    node' := node;
    read := [];
    assert before + read == before;
    var i := 0;
    while i < |keys|
      invariant 0 <= i <= |keys| && read == keys[..i]
      invariant forall k :: 0 <= k < i ==> tool(query(keys[k])).Succeeded?
      invariant node' == record(before + read)
    {
      var e;
      e, node' := ReadField(name, cmdArgs, tool, keys[i], node', before + read, value, query, record);
      assert before + read + [keys[i]] == before + (read + [keys[i]]);
      assert keys[..i + 1] == read + [keys[i]];
      read := read + [keys[i]];
      if e.Some? {
        return e, node', read;
      }
      i := i + 1;
    }
    assert keys[..i] == keys;
    err := None;
  }

  /**
   * Reads the fields of node `name` once its presence check `cmdArgs` has
   * succeeded: group by group, Spec and Status in the order Go's map
   * iteration happens to take; the first failing query is returned.
   * `order` lists the fields queried.
   */
  method ReadFields(name: string, cmdArgs: Argv, tool: Tool, ghost value: Field -> string,
                    ghost query: Field -> Argv, ghost record: seq<Field> -> Node)
    returns (r: Result<Node, Error>, order: seq<Field>)
    requires Reads(name, cmdArgs, tool, value, query, record)
    ensures forall k, l :: 0 <= k < l < |order| ==> order[k] != order[l]
    ensures forall k :: 0 <= k < |order| - 1 ==> tool(query(order[k])).Succeeded?
    ensures r.Success? <==> forall f: Field :: tool(query(f)).Succeeded?
    ensures r.Success? ==> r.value == record(order) && forall f :: f in order
    ensures r.Failure? ==>
      && |order| > 0 && !tool(query(order[|order| - 1])).Succeeded?
      && r.error == CommandFailed(query(order[|order| - 1]))
  {
    order := [];
    var node := EmptyNode(name);
    assert node == Applied(name, value, order);
    var groups := {SpecGroup, StatusGroup};
    while groups != {}
      invariant forall f :: f in order <==> GroupOf(f) !in groups
      invariant forall k, l :: 0 <= k < l < |order| ==> order[k] != order[l]
      invariant forall f :: f in order ==> tool(query(f)).Succeeded?
      invariant node == record(order)
      decreases |groups|
    {
      var g :| g in groups;
      var err, read;
      err, node, read := ReadGroup(name, cmdArgs, tool, g, node, order, value, query, record);
      order := order + read;
      if err.Some? {
        return Failure(err.value), order;
      }
      groups := groups - {g};
    }
    r := Success(node);
  }

  /**
   * What ReadFields reports, restated for the commands that ran: the
   * presence check `cmdArgs`, then the queries for `order`.
   */
  lemma ReadOutcome(name: string, cmdArgs: Argv, tool: Tool, value: Field -> string, query: Field -> Argv,
                    r: Result<Node, Error>, order: seq<Field>)
    requires tool(cmdArgs).Succeeded?
    requires forall f :: query(f) == WithFilter(cmdArgs, f)
    requires forall k, l :: 0 <= k < l < |order| ==> order[k] != order[l]
    requires forall k :: 0 <= k < |order| - 1 ==> tool(query(order[k])).Succeeded?
    requires r.Success? <==> forall f: Field :: tool(query(f)).Succeeded?
    requires r.Success? ==> r.value == Applied(name, value, order) && forall f :: f in order
    requires r.Failure? ==>
      && |order| > 0 && !tool(query(order[|order| - 1])).Succeeded?
      && r.error == CommandFailed(query(order[|order| - 1]))
    ensures var issued := [cmdArgs] + Queries(cmdArgs, order);
      && (forall k :: 0 <= k < |issued| - 1 ==> tool(issued[k]).Succeeded?)
      && (r.Success? <==> Answers(cmdArgs, tool))
      && (r.Success? ==> r.value == Reported(name, value, AllFields))
      && (r.Failure? ==>
            && issued[|issued| - 1] == WithFilter(cmdArgs, order[|order| - 1])
            && r.error == CommandFailed(issued[|issued| - 1]) && !tool(issued[|issued| - 1]).Succeeded?)
  {
    if r.Success? {
      forall f ensures f in AllFields {
        AllFieldsListed(f);
      }
      AppliedReported(name, value, order, AllFields);
      RunsSucceeded(cmdArgs, tool, order, |order|);
    } else {
      RunsSucceeded(cmdArgs, tool, order, |order| - 1);
    }
  }

  /**
   * Reads the fields of a node whose presence check `cmdArgs` succeeded and
   * says which commands that ran: `cmdArgs`, then one query per field in
   * `order`, ending at the first that failed. `value(f)` stands for what
   * the query for `f` prints, trimmed.
   */
  method ReadNode(name: string, cmdArgs: Argv, tool: Tool, ghost value: Field -> string)
    returns (r: Result<Node, Error>, issued: seq<Argv>, order: seq<Field>)
    requires tool(cmdArgs).Succeeded?
    requires forall f :: value(f) == Printed(cmdArgs, tool, f)
    ensures issued == [cmdArgs] + Queries(cmdArgs, order)
    ensures forall k, l :: 0 <= k < l < |order| ==> order[k] != order[l]
    ensures forall k :: 0 <= k < |issued| - 1 ==> tool(issued[k]).Succeeded?
    ensures r.Success? <==> Answers(cmdArgs, tool)
    ensures r.Success? ==> r.value == Reported(name, value, AllFields) && forall f :: f in order
    ensures r.Failure? ==>
      && |order| > 0 && issued[|issued| - 1] == WithFilter(cmdArgs, order[|order| - 1])
      && r.error == CommandFailed(issued[|issued| - 1]) && !tool(issued[|issued| - 1]).Succeeded?
  {
    ghost var query := f => WithFilter(cmdArgs, f);
    ghost var record := order => Applied(name, value, order);
    r, order := ReadFields(name, cmdArgs, tool, value, query, record);
    issued := [cmdArgs] + Queries(cmdArgs, order);
    ReadOutcome(name, cmdArgs, tool, value, query, r, order);
  }

  /**
   * Reads one node: a presence check first, whose failure is returned
   * before any field is queried; then one query per field (ReadNode).
   * Each printed value is trimmed and converted leniently.
   */
  method GetNode(name: string, tool: Tool)
    returns (r: Result<Node, Error>, issued: seq<Argv>, order: seq<Field>)
    ensures issued == [PresenceArgv(name)] + Queries(PresenceArgv(name), order)
    ensures forall k, l :: 0 <= k < l < |order| ==> order[k] != order[l]
    ensures !tool(PresenceArgv(name)).Succeeded? ==> order == [] && r == Failure(CommandFailed(PresenceArgv(name)))
    ensures forall k :: 0 <= k < |issued| - 1 ==> tool(issued[k]).Succeeded?
    ensures r.Success? <==> Readable(name, tool)
    ensures r.Success? ==> r.value == Fetched(name, tool) && forall f :: f in order
    ensures r.Failure? ==>
      && r.error == CommandFailed(issued[|issued| - 1]) && !tool(issued[|issued| - 1]).Succeeded?
      && GetNodeError(r.error.argv, name, tool)
  {
    var cmdArgs := PresenceArgv(name);
    if !tool(cmdArgs).Succeeded? {
      return Failure(CommandFailed(cmdArgs)), [cmdArgs], [];
    }
    r, issued, order := ReadNode(name, cmdArgs, tool, PrintedBy(cmdArgs, tool));
    if r.Failure? {
      assert r.error.argv == QueryArgv(name, order[|order| - 1]);
    }
  }

  /**
   * `readable(n)` says whether node `n` can be read, `fetch(n)` is the
   * record GetNode returns for it and `failure(n, argv)` whether `argv` is an
   * error GetNode can return for it. FetchAll carries them as function values
   * so that its loop does not unfold what they stand for; only FetchNode,
   * which calls GetNode, relates them to Readable, Fetched and GetNodeError.
   */
  ghost predicate Gets(tool: Tool, readable: string -> bool, fetch: string -> Node, failure: (string, Argv) -> bool)
  {
    && (forall n {:trigger Readable(n, tool)} :: readable(n) == Readable(n, tool))
    && (forall n {:trigger Fetched(n, tool)} :: fetch(n) == Fetched(n, tool))
    && (forall n, argv {:trigger GetNodeError(argv, n, tool)} :: failure(n, argv) == GetNodeError(argv, n, tool))
  }

  /** GetNode, as ListNodes uses it: the record or the error, nothing else. */
  method FetchNode(name: string, tool: Tool, ghost readable: string -> bool, ghost fetch: string -> Node,
                   ghost failure: (string, Argv) -> bool)
    returns (r: Result<Node, Error>)
    requires Gets(tool, readable, fetch, failure)
    ensures r.Success? <==> readable(name)
    ensures r.Success? ==> r.value == fetch(name)
    ensures r.Failure? ==> failure(name, r.error.argv)
  {
    var issued, order;
    r, issued, order := GetNode(name, tool);
    assert readable(name) == Readable(name, tool);
    assert fetch(name) == Fetched(name, tool);
    if r.Failure? {
      assert failure(name, r.error.argv) == GetNodeError(r.error.argv, name, tool);
    }
  }

  /**
   * Reads the listed nodes in order and returns the first error unchanged;
   * `fetched` lists the names asked for.
   */
  method FetchAll(names: seq<string>, tool: Tool, ghost readable: string -> bool, ghost fetch: string -> Node,
                  ghost failure: (string, Argv) -> bool)
    returns (r: Result<seq<Node>, Error>, fetched: seq<string>)
    requires Gets(tool, readable, fetch, failure)
    ensures |fetched| <= |names| && fetched == names[..|fetched|]
    ensures forall k :: 0 <= k < |fetched| - 1 ==> readable(fetched[k])
    ensures r.Success? <==> fetched == names && forall k :: 0 <= k < |names| ==> readable(names[k])
    ensures r.Success? ==> |r.value| == |names| && forall k :: 0 <= k < |names| ==> r.value[k] == fetch(names[k])
    ensures r.Failure? ==>
      && |fetched| > 0 && !readable(fetched[|fetched| - 1])
      && failure(fetched[|fetched| - 1], r.error.argv)
  {
    fetched := [];
    var nodes: seq<Node> := [];
    var i := 0;
    while i < |names|
      invariant 0 <= i <= |names| && fetched == names[..i] && |nodes| == i
      invariant forall k :: 0 <= k < i ==> readable(names[k])
      invariant forall k :: 0 <= k < i ==> nodes[k] == fetch(names[k])
    {
      var n := FetchNode(names[i], tool, readable, fetch, failure);
      assert names[..i + 1] == fetched + [names[i]];
      fetched := fetched + [names[i]];
      if n.Failure? {
        return Failure(n.error), fetched;
      }
      nodes := nodes + [n.value];
      i := i + 1;
    }
    assert names[..i] == names;
    r := Success(nodes);
  }

  /**
   * The outcome of reading `names` in order with GetNode, stopping at the
   * first node that cannot be read: `fetched` are the names asked for, `r`
   * the records of all of them or GetNode's error for the last one asked.
   */
  ghost predicate FetchedInOrder(names: seq<string>, tool: Tool, r: Result<seq<Node>, Error>, fetched: seq<string>)
  {
    && |fetched| <= |names| && fetched == names[..|fetched|]
    && (forall k :: 0 <= k < |fetched| - 1 ==> Readable(fetched[k], tool))
    && (r.Success? <==> fetched == names && forall k :: 0 <= k < |names| ==> Readable(names[k], tool))
    && (r.Success? ==>
          |r.value| == |names| && forall k :: 0 <= k < |names| ==> r.value[k] == Fetched(names[k], tool))
    && (r.Failure? ==>
          && |fetched| > 0 && !Readable(fetched[|fetched| - 1], tool)
          && GetNodeError(r.error.argv, fetched[|fetched| - 1], tool))
  }

  /** Reads the named nodes in order with GetNode and returns the first error unchanged. */
  method FetchNodes(names: seq<string>, tool: Tool, ghost readable: string -> bool, ghost fetch: string -> Node,
                    ghost failure: (string, Argv) -> bool)
    returns (r: Result<seq<Node>, Error>, fetched: seq<string>)
    requires Gets(tool, readable, fetch, failure)
    ensures FetchedInOrder(names, tool, r, fetched)
  {
    r, fetched := FetchAll(names, tool, readable, fetch, failure);
    forall n ensures readable(n) == Readable(n, tool) && fetch(n) == Fetched(n, tool) {
    }
    if r.Failure? {
      assert failure(fetched[|fetched| - 1], r.error.argv) == GetNodeError(r.error.argv, fetched[|fetched| - 1], tool);
    }
  }

  /**
   * Lists the nodes whose name matches `clusterName` (all nodes when it is
   * empty): one `ps` command, then GetNode for each listed name in order,
   * returning the first error unchanged. Empty output lists no node.
   * `names` are the listed names and `fetched` those GetNode was called on.
   */
  method ListNodes(clusterName: string, tool: Tool)
    returns (r: Result<seq<Node>, Error>, names: seq<string>, fetched: seq<string>)
    ensures !tool(ListArgv(clusterName)).Succeeded? ==>
      r == Failure(CommandFailed(ListArgv(clusterName))) && names == [] && fetched == []
    ensures tool(ListArgv(clusterName)).Succeeded? ==>
      && names == ListedNames(tool(ListArgv(clusterName)).stdout)
      && FetchedInOrder(names, tool, r, fetched)
  {
    var argv := ListArgv(clusterName);
    if !tool(argv).Succeeded? {
      return Failure(CommandFailed(argv)), [], [];
    }
    var output := tool(argv).stdout;
    names := ListedNames(output);
    r, fetched := FetchNodes(names, tool, n => Readable(n, tool), n => Fetched(n, tool),
      (n, a) => GetNodeError(a, n, tool));
  }
}
