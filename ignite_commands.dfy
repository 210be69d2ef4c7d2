/**
 * How the Ignite node manager names nodes and which `ignite` command lines it
 * builds (pkg/node/ignite.go): the create and delete templates, their
 * rendering and the naive split at single spaces, and the fixed `ps`
 * queries used to inspect and list nodes. Every command is run through
 * `sudo`; an `Argv` is the argument list given to `sudo`.
 */
module IgniteCommands {
  import opened Wrappers
  import opened GoStrings
  import opened GoStrconv
  import opened HtmlTemplate

  type Argv = seq<string>

  /** The cluster-wide part of a node configuration (config.Cluster). */
  datatype ClusterConfig = ClusterConfig(name: string, image: string, kernelImage: string, kernelArgs: string)

  /** The desired state of one group of nodes (config.Node). */
  datatype NodeConfig = NodeConfig(cluster: ClusterConfig, count: int, cpus: int, memory: string, diskSize: string)

  // ---------------------------------------------------------------- naming

  function NamePrefix(clusterName: string, nodeType: string): string
  {
    clusterName + "-" + nodeType + "-"
  }

  /** `{cluster}-{type}-{ordinal}`, the ordinal in decimal. */
  function NodeName(clusterName: string, nodeType: string, ordinal: int): (name: string)
    ensures |name| > |NamePrefix(clusterName, nodeType)|
    ensures name[..|NamePrefix(clusterName, nodeType)|] == NamePrefix(clusterName, nodeType)
    ensures name[|NamePrefix(clusterName, nodeType)|..] == Itoa(ordinal)
  {
    NamePrefix(clusterName, nodeType) + Itoa(ordinal)
  }

  /** Within one cluster and node type, different ordinals never share a name. */
  lemma NodeNamesDistinct(clusterName: string, nodeType: string, i: int, j: int)
    requires i != j
    ensures NodeName(clusterName, nodeType, i) != NodeName(clusterName, nodeType, j)
  {
    if NodeName(clusterName, nodeType, i) == NodeName(clusterName, nodeType, j) {
      ItoaInjective(i, j);
    }
  }

  /** Reads the ordinal back from a node name of the given cluster and type. */
  function OrdinalOf(name: string, clusterName: string, nodeType: string): Option<int>
  {
    var p := NamePrefix(clusterName, nodeType);
    if |p| <= |name| && name[..|p|] == p then ParseInt(name[|p|..]) else None
  }

  /** The ordinal is recovered from the name, for every int64 ordinal. */
  lemma OrdinalOfNodeName(clusterName: string, nodeType: string, i: int)
    requires MinInt64 <= i <= MaxInt64
    ensures OrdinalOf(NodeName(clusterName, nodeType, i), clusterName, nodeType) == Some(i)
  {
    ParseIntItoa(i);
  }

  // -------------------------------------------------------- create / delete

  /**
   * The fields of the anonymous structs the create and delete templates are
   * executed on; the delete struct has only Name.
   */
  datatype TemplateField = Name | Image | KernelImage | KernelArgs | Cpus | Memory | DiskSize

  /** RunCmd, `ignite run {{.Image}} --name={{.Name}} --ssh ...`, parsed. */
  const RunCmd: Template<TemplateField> := [
    Text("ignite run "), Action(Image),
    Text(" --name="), Action(Name),
    Text(" --ssh --kernel-image="), Action(KernelImage),
    Text(" --cpus="), Action(Cpus),
    Text(" --memory="), Action(Memory),
    Text(" --size="), Action(DiskSize)
  ]

  /** DeleteCmd, `ignite rm {{.Name}} --force`, parsed. */
  const DeleteCmd: Template<TemplateField> := [Text("ignite rm "), Action(Name), Text(" --force")]

  /**
   * The printed fields of the anonymous struct CreateNodes fills in for one
   * ordinal. KernelArgs is among them although RunCmd never uses it.
   */
  function RunData(node: NodeConfig, nodeType: string, ordinal: int): (data: map<TemplateField, string>)
    ensures Defines(RunCmd, data)
  {
    map[
      Name := NodeName(node.cluster.name, nodeType, ordinal),
      Image := node.cluster.image,
      KernelImage := node.cluster.kernelImage,
      KernelArgs := node.cluster.kernelArgs,
      Cpus := Itoa(node.cpus),
      Memory := node.memory,
      DiskSize := node.diskSize
    ]
  }

  /** The rendered create command for one ordinal; rendering cannot fail. */
  function RunText(node: NodeConfig, nodeType: string, ordinal: int): (text: string)
    ensures Execute(RunCmd, RunData(node, nodeType, ordinal)) == Success(text)
  {
    RunCmdRenders(node, nodeType, ordinal);
    Execute(RunCmd, RunData(node, nodeType, ordinal)).value
  }

  /** The create command line: the rendered text cut at every single space. */
  function CreateArgv(node: NodeConfig, nodeType: string, ordinal: int): Argv
  {
    Split(RunText(node, nodeType, ordinal), ' ')
  }

  /** The rendered delete command for one node; rendering cannot fail. */
  function DeleteText(name: string): (text: string)
    ensures Execute(DeleteCmd, map[Name := name]) == Success(text)
  {
    DeleteCmdRenders(name);
    Execute(DeleteCmd, map[Name := name]).value
  }

  /** The delete command line: the rendered text cut at every single space. */
  function DeleteArgv(name: string): Argv
  {
    Split(DeleteText(name), ' ')
  }

  /** No value substituted into RunCmd contains a space. */
  predicate SpaceFree(node: NodeConfig, nodeType: string)
  {
    && ' ' !in node.cluster.name && ' ' !in nodeType && ' ' !in node.cluster.image
    && ' ' !in node.cluster.kernelImage && ' ' !in node.memory && ' ' !in node.diskSize
  }

  lemma ItoaIsPlain(i: int)
    ensures ' ' !in Itoa(i) && HtmlNeutral(Itoa(i))
  {
  }

  /** One step of splitting a command line: a first word, a space, then the rest. */
  lemma SplitWord(word: string, rest: string, restWords: seq<string>)
    requires ' ' !in word && Split(rest, ' ') == restWords
    ensures Split(word + (" " + rest), ' ') == [word] + restWords
  {
    SplitAfterPiece(word, ' ', rest);
    Assoc(word, " ", rest);
    assert " " == [' '];
  }

  lemma Assoc<T>(a: seq<T>, b: seq<T>, c: seq<T>)
    ensures a + b + c == a + (b + c)
  {
  }

  /** The fixed words of the command lines contain no space. */
  lemma LiteralWordsSpaceFree()
    ensures ' ' !in "ignite" && ' ' !in "run" && ' ' !in "rm" && ' ' !in "ps"
    ensures ' ' !in "--force" && ' ' !in "--ssh" && ' ' !in "--all" && ' ' !in "-f"
    ensures ' ' !in "--name=" && ' ' !in "--kernel-image=" && ' ' !in "--cpus="
    ensures ' ' !in "--memory=" && ' ' !in "--size=" && ' ' !in "{{.ObjectMeta.Name}}="
  {
  }

  /** Splitting three space-free words joined by single spaces gives them back. */
  lemma SplitThree(a: string, b: string, c: string)
    requires ' ' !in a && ' ' !in b && ' ' !in c
    ensures Split(a + (" " + (b + (" " + c))), ' ') == [a, b, c]
  {
    assert Split(c, ' ') == [c];
    SplitWord(b, c, [c]);
    assert [b] + [c] == [b, c];
    assert [a] + [b, c] == [a, b, c];
    SplitWord(a, b + (" " + c), [b, c]);
  }

  /** The same for four words. */
  lemma SplitFour(a: string, b: string, c: string, d: string)
    requires ' ' !in a && ' ' !in b && ' ' !in c && ' ' !in d
    ensures Split(a + (" " + (b + (" " + (c + (" " + d))))), ' ') == [a, b, c, d]
  {
    SplitThree(b, c, d);
    assert [a] + [b, c, d] == [a, b, c, d];
    SplitWord(a, b + (" " + (c + (" " + d))), [b, c, d]);
  }

  /** SplitFour, stated for a text already known to be four spaced words. */
  lemma SplitFourWords(text: string, a: string, b: string, c: string, d: string)
    requires ' ' !in a && ' ' !in b && ' ' !in c && ' ' !in d
    requires text == a + (" " + (b + (" " + (c + (" " + d)))))
    ensures Split(text, ' ') == [a, b, c, d]
  {
    SplitFour(a, b, c, d);
  }

  /** The same for five words. */
  lemma SplitFive(a: string, b: string, c: string, d: string, e: string)
    requires ' ' !in a && ' ' !in b && ' ' !in c && ' ' !in d && ' ' !in e
    ensures Split(a + (" " + (b + (" " + (c + (" " + (d + (" " + e))))))), ' ') == [a, b, c, d, e]
  {
    SplitFour(b, c, d, e);
    assert [a] + [b, c, d, e] == [a, b, c, d, e];
    SplitWord(a, b + (" " + (c + (" " + (d + (" " + e))))), [b, c, d, e]);
  }

  /** The same for six words. */
  lemma SplitSix(a: string, b: string, c: string, d: string, e: string, f: string)
    requires ' ' !in a && ' ' !in b && ' ' !in c && ' ' !in d && ' ' !in e && ' ' !in f
    ensures Split(a + (" " + (b + (" " + (c + (" " + (d + (" " + (e + (" " + f))))))))), ' ')
      == [a, b, c, d, e, f]
  {
    SplitFive(b, c, d, e, f);
    assert [a] + [b, c, d, e, f] == [a, b, c, d, e, f];
    SplitWord(a, b + (" " + (c + (" " + (d + (" " + (e + (" " + f))))))), [b, c, d, e, f]);
  }

  /** The same for seven words. */
  lemma SplitSeven(a: string, b: string, c: string, d: string, e: string, f: string, g: string)
    requires ' ' !in a && ' ' !in b && ' ' !in c && ' ' !in d && ' ' !in e && ' ' !in f && ' ' !in g
    ensures Split(a + (" " + (b + (" " + (c + (" " + (d + (" " + (e + (" " + (f + (" " + g))))))))))), ' ')
      == [a, b, c, d, e, f, g]
  {
    SplitSix(b, c, d, e, f, g);
    ConsSeven(a, b, c, d, e, f, g);
    SplitWord(a, b + (" " + (c + (" " + (d + (" " + (e + (" " + (f + (" " + g))))))))), [b, c, d, e, f, g]);
  }

  /** The same for eight words. */
  lemma SplitEight(a: string, b: string, c: string, d: string, e: string, f: string, g: string, h: string)
    requires ' ' !in a && ' ' !in b && ' ' !in c && ' ' !in d && ' ' !in e && ' ' !in f && ' ' !in g && ' ' !in h
    ensures Split(a + (" " + (b + (" " + (c + (" " + (d + (" " + (e + (" " + (f + (" " + (g + (" " + h))))))))))))), ' ')
      == [a, b, c, d, e, f, g, h]
  {
    SplitSeven(b, c, d, e, f, g, h);
    ConsEight(a, b, c, d, e, f, g, h);
    SplitWord(a, b + (" " + (c + (" " + (d + (" " + (e + (" " + (f + (" " + (g + (" " + h))))))))))), [b, c, d, e, f, g, h]);
  }

  /** The same for nine words. */
  lemma SplitNine(a: string, b: string, c: string, d: string, e: string, f: string, g: string, h: string, i: string)
    requires ' ' !in a && ' ' !in b && ' ' !in c && ' ' !in d && ' ' !in e && ' ' !in f && ' ' !in g && ' ' !in h && ' ' !in i
    ensures Split(a + (" " + (b + (" " + (c + (" " + (d + (" " + (e + (" " + (f + (" " + (g + (" " + (h + (" " + i))))))))))))))), ' ')
      == [a, b, c, d, e, f, g, h, i]
  {
    SplitEight(b, c, d, e, f, g, h, i);
    ConsNine(a, b, c, d, e, f, g, h, i);
    SplitWord(a, b + (" " + (c + (" " + (d + (" " + (e + (" " + (f + (" " + (g + (" " + (h + (" " + i))))))))))))), [b, c, d, e, f, g, h, i]);
  }

  lemma ConsSeven<T>(a: T, b: T, c: T, d: T, e: T, f: T, g: T)
    ensures [a] + [b, c, d, e, f, g] == [a, b, c, d, e, f, g]
  {
  }

  lemma ConsEight<T>(a: T, b: T, c: T, d: T, e: T, f: T, g: T, h: T)
    ensures [a] + [b, c, d, e, f, g, h] == [a, b, c, d, e, f, g, h]
  {
  }

  lemma ConsNine<T>(a: T, b: T, c: T, d: T, e: T, f: T, g: T, h: T, i: T)
    ensures [a] + [b, c, d, e, f, g, h, i] == [a, b, c, d, e, f, g, h, i]
  {
  }

  /** SplitNine, stated for a text known to be nine spaced words. */
  lemma SplitNineWords(text: string, a: string, b: string, c: string, d: string, e: string,
                       f: string, g: string, h: string, i: string)
    requires ' ' !in a && ' ' !in b && ' ' !in c && ' ' !in d && ' ' !in e
    requires ' ' !in f && ' ' !in g && ' ' !in h && ' ' !in i
    requires text == a + (" " + (b + (" " + (c + (" " + (d + (" " + (e + (" " + (f + (" " + (g + (" " + (h + (" " + i)))))))))))))))
    ensures Split(text, ' ') == [a, b, c, d, e, f, g, h, i]
  {
    SplitNine(a, b, c, d, e, f, g, h, i);
  }

  /** RunCmd is six slots, one per field it prints. */
  lemma RunCmdSlots()
    ensures RunCmd == Slot("ignite run ", Image) + (Slot(" --name=", Name)
      + (Slot(" --ssh --kernel-image=", KernelImage) + (Slot(" --cpus=", Cpus)
      + (Slot(" --memory=", Memory) + (Slot(" --size=", DiskSize) + [])))))
  {
  }

  /** RunCmd rendered: the literal text with each field escaped in place. */
  lemma RunCmdRenders(node: NodeConfig, nodeType: string, ordinal: int)
    ensures Execute(RunCmd, RunData(node, nodeType, ordinal)) == Success( "ignite run " + (HtmlEscape(node.cluster.image)
      + (" --name=" + (HtmlEscape(NodeName(node.cluster.name, nodeType, ordinal))
      + (" --ssh --kernel-image=" + (HtmlEscape(node.cluster.kernelImage)
      + (" --cpus=" + (HtmlEscape(Itoa(node.cpus))
      + (" --memory=" + (HtmlEscape(node.memory)
      + (" --size=" + (HtmlEscape(node.diskSize) + ""))))))))))))
  {
    var d := RunData(node, nodeType, ordinal);
    assert d[Image] == node.cluster.image && d[Name] == NodeName(node.cluster.name, nodeType, ordinal);
    assert d[KernelImage] == node.cluster.kernelImage && d[Cpus] == Itoa(node.cpus);
    assert d[Memory] == node.memory && d[DiskSize] == node.diskSize;
    var t6 := Slot(" --size=", DiskSize) + [];
    var s6 := " --size=" + (HtmlEscape(node.diskSize) + "");
    ExecuteSlot(" --size=", DiskSize, [], d);
    assert Execute(t6, d) == Success(s6);
    var t5 := Slot(" --memory=", Memory) + t6;
    var s5 := " --memory=" + (HtmlEscape(node.memory) + s6);
    ExecuteSlot(" --memory=", Memory, t6, d);
    assert Execute(t5, d) == Success(s5);
    var t4 := Slot(" --cpus=", Cpus) + t5;
    var s4 := " --cpus=" + (HtmlEscape(Itoa(node.cpus)) + s5);
    ExecuteSlot(" --cpus=", Cpus, t5, d);
    assert Execute(t4, d) == Success(s4);
    var t3 := Slot(" --ssh --kernel-image=", KernelImage) + t4;
    var s3 := " --ssh --kernel-image=" + (HtmlEscape(node.cluster.kernelImage) + s4);
    ExecuteSlot(" --ssh --kernel-image=", KernelImage, t4, d);
    assert Execute(t3, d) == Success(s3);
    var t2 := Slot(" --name=", Name) + t3;
    var s2 := " --name=" + (HtmlEscape(NodeName(node.cluster.name, nodeType, ordinal)) + s3);
    ExecuteSlot(" --name=", Name, t3, d);
    assert Execute(t2, d) == Success(s2);
    var t1 := Slot("ignite run ", Image) + t2;
    ExecuteSlot("ignite run ", Image, t2, d);
    RunCmdSlots();
    assert RunCmd == t1;
  }

  /**
   * When no substituted value contains a space, the create command line is
   * exactly the nine arguments of RunCmd, each field escaped as html/template
   * escapes it.
   */
  lemma CreateArgvShape(node: NodeConfig, nodeType: string, ordinal: int)
    requires SpaceFree(node, nodeType)
    ensures CreateArgv(node, nodeType, ordinal) == [
      "ignite", "run", HtmlEscape(node.cluster.image),
      "--name=" + HtmlEscape(NodeName(node.cluster.name, nodeType, ordinal)),
      "--ssh",
      "--kernel-image=" + HtmlEscape(node.cluster.kernelImage),
      "--cpus=" + Itoa(node.cpus),
      "--memory=" + HtmlEscape(node.memory),
      "--size=" + HtmlEscape(node.diskSize)]
  {
    ItoaIsPlain(ordinal);
    ItoaIsPlain(node.cpus);
    HtmlEscapeNeutral(Itoa(node.cpus));
    var e1 := HtmlEscape(node.cluster.image);
    var e2 := HtmlEscape(NodeName(node.cluster.name, nodeType, ordinal));
    var e3 := HtmlEscape(node.cluster.kernelImage);
    var e4 := Itoa(node.cpus);
    var e5 := HtmlEscape(node.memory);
    var e6 := HtmlEscape(node.diskSize);
    HtmlEscapeKeepsSpaces(node.cluster.image);
    HtmlEscapeKeepsSpaces(NodeName(node.cluster.name, nodeType, ordinal));
    HtmlEscapeKeepsSpaces(node.cluster.kernelImage);
    HtmlEscapeKeepsSpaces(node.memory);
    HtmlEscapeKeepsSpaces(node.diskSize);
    RunCmdRenders(node, nodeType, ordinal);
    RunTextRegrouped(e1, e2, e3, e4, e5, e6);
    LiteralWordsSpaceFree();
    SplitNineWords(RunText(node, nodeType, ordinal), "ignite", "run", e1, "--name=" + e2, "--ssh",
      "--kernel-image=" + e3, "--cpus=" + e4, "--memory=" + e5, "--size=" + e6);
  }

  /** The rendered create text, regrouped word by word. */
  lemma RunTextRegrouped(e1: string, e2: string, e3: string, e4: string, e5: string, e6: string)
    ensures "ignite run " + (e1 + (" --name=" + (e2 + (" --ssh --kernel-image=" + (e3
      + (" --cpus=" + (e4 + (" --memory=" + (e5 + (" --size=" + (e6 + "")))))))))))
      == "ignite" + (" " + ("run" + (" " + (e1 + (" " + ("--name=" + e2 + (" " + ("--ssh"
      + (" " + ("--kernel-image=" + e3 + (" " + ("--cpus=" + e4 + (" " + ("--memory=" + e5
      + (" " + ("--size=" + e6))))))))))))))))
  {
    var r6 := " " + ("--size=" + e6);
    var l6 := " --size=" + (e6 + "");
    assert l6 == r6 by {
      assert e6 + "" == e6;
      assert " --size=" == " " + "--size=";
      Assoc(" ", "--size=", e6);
    }
    var r5 := " " + ("--memory=" + e5 + r6);
    var l5 := " --memory=" + (e5 + l6);
    assert l5 == r5 by {
      assert " --memory=" == " " + "--memory=";
      SpacedSlot("--memory=", e5, r6);
    }
    var r4 := " " + ("--cpus=" + e4 + r5);
    var l4 := " --cpus=" + (e4 + l5);
    assert l4 == r4 by {
      assert " --cpus=" == " " + "--cpus=";
      SpacedSlot("--cpus=", e4, r5);
    }
    var r3 := " " + ("--ssh" + (" " + ("--kernel-image=" + e3 + r4)));
    var l3 := " --ssh --kernel-image=" + (e3 + l4);
    assert l3 == r3 by {
      assert " --ssh --kernel-image=" == " " + ("--ssh" + " " + "--kernel-image=");
      SpacedSlot("--ssh" + " " + "--kernel-image=", e3, r4);
      SpacedWord("--ssh", "--kernel-image=", e3, r4);
    }
    var r2 := " " + ("--name=" + e2 + r3);
    var l2 := " --name=" + (e2 + l3);
    assert l2 == r2 by {
      assert " --name=" == " " + "--name=";
      SpacedSlot("--name=", e2, r3);
    }
    assert "ignite run " + (e1 + l2) == "ignite" + (" " + ("run" + (" " + (e1 + r2)))) by {
      assert "ignite run " == "ignite" + " " + "run" + " ";
      WordsAhead("ignite", "run", e1 + r2);
    }
  }

  lemma SpacedSlot(w: string, e: string, rest: string)
    ensures (" " + w) + (e + rest) == " " + (w + e + rest)
  {
  }

  lemma SpacedWord(a: string, b: string, e: string, rest: string)
    ensures a + " " + b + e + rest == a + (" " + (b + e + rest))
  {
  }

  lemma WordsAhead(a: string, b: string, x: string)
    ensures (a + " " + b + " ") + x == a + (" " + (b + (" " + x)))
  {
  }

  /**
   * For values free of spaces and of HTML-special characters, the create
   * command line is `ignite run <image> --name=<name> --ssh
   * --kernel-image=<kernel> --cpus=<cpus> --memory=<memory> --size=<disk>`.
   */
  lemma CreateArgvPlain(node: NodeConfig, nodeType: string, ordinal: int)
    requires SpaceFree(node, nodeType)
    requires HtmlNeutral(node.cluster.name) && HtmlNeutral(nodeType) && HtmlNeutral(node.cluster.image)
    requires HtmlNeutral(node.cluster.kernelImage) && HtmlNeutral(node.memory) && HtmlNeutral(node.diskSize)
    ensures CreateArgv(node, nodeType, ordinal) == [
      "ignite", "run", node.cluster.image,
      "--name=" + NodeName(node.cluster.name, nodeType, ordinal),
      "--ssh",
      "--kernel-image=" + node.cluster.kernelImage,
      "--cpus=" + Itoa(node.cpus),
      "--memory=" + node.memory,
      "--size=" + node.diskSize]
  {
    CreateArgvShape(node, nodeType, ordinal);
    var name := NodeName(node.cluster.name, nodeType, ordinal);
    NodeNameNeutral(node.cluster.name, nodeType, ordinal);
    HtmlEscapeNeutral(name);
    HtmlEscapeNeutral(node.cluster.image);
    HtmlEscapeNeutral(node.cluster.kernelImage);
    HtmlEscapeNeutral(node.memory);
    HtmlEscapeNeutral(node.diskSize);
  }

  /** A node name has no HTML-special character when its cluster name and type have none. */
  lemma NodeNameNeutral(clusterName: string, nodeType: string, ordinal: int)
    requires HtmlNeutral(clusterName) && HtmlNeutral(nodeType)
    ensures HtmlNeutral(NodeName(clusterName, nodeType, ordinal))
  {
    assert HtmlNeutral("-") by {
      assert "-"[0] == '-';
    }
    HtmlNeutralAppend(clusterName, "-");
    HtmlNeutralAppend(clusterName + "-", nodeType);
    HtmlNeutralAppend(clusterName + "-" + nodeType, "-");
    ItoaIsPlain(ordinal);
    HtmlNeutralAppend(NamePrefix(clusterName, nodeType), Itoa(ordinal));
  }

  /** The kernel arguments of the cluster never reach the create command. */
  lemma CreateArgvIgnoresKernelArgs(node: NodeConfig, nodeType: string, ordinal: int, kernelArgs: string)
    ensures CreateArgv(node.(cluster := node.cluster.(kernelArgs := kernelArgs)), nodeType, ordinal)
      == CreateArgv(node, nodeType, ordinal)
  {
    var other := node.(cluster := node.cluster.(kernelArgs := kernelArgs));
    var d1, d2 := RunData(other, nodeType, ordinal), RunData(node, nodeType, ordinal);
    assert forall f :: f != KernelArgs ==> f in d1 && f in d2 && d1[f] == d2[f];
    assert forall k :: 0 <= k < |RunCmd| ==> RunCmd[k] != Action(KernelArgs);
    ExecuteReadsOnlyNamedFields(RunCmd, d1, d2);
    assert RunText(other, nodeType, ordinal) == RunText(node, nodeType, ordinal);
  }

  /** DeleteCmd rendered: the literal text around the escaped name. */
  lemma DeleteCmdRenders(name: string)
    ensures Execute(DeleteCmd, map[Name := name]) == Success("ignite rm " + (HtmlEscape(name) + (" --force" + "")))
  {
    var d := map[Name := name];
    var tail: Template<TemplateField> := [Text(" --force")];
    assert DeleteCmd == Slot("ignite rm ", Name) + tail;
    assert tail[1..] == [];
    ExecuteSlot("ignite rm ", Name, tail, d);
  }

  /** When the name has no space, the delete command line is `ignite rm <name> --force`. */
  lemma DeleteArgvShape(name: string)
    requires ' ' !in name
    ensures DeleteArgv(name) == ["ignite", "rm", HtmlEscape(name), "--force"]
  {
    var e := HtmlEscape(name);
    HtmlEscapeKeepsSpaces(name);
    DeleteCmdRenders(name);
    DeleteTextRegrouped(e);
    LiteralWordsSpaceFree();
    SplitFourWords(DeleteText(name), "ignite", "rm", e, "--force");
  }

  /** For a name free of spaces and of HTML-special characters, the delete command line is `ignite rm <name> --force`. */
  lemma DeleteArgvPlain(name: string)
    requires ' ' !in name && HtmlNeutral(name)
    ensures DeleteArgv(name) == ["ignite", "rm", name, "--force"]
  {
    DeleteArgvShape(name);
    HtmlEscapeNeutral(name);
  }

  lemma DeleteTextRegrouped(e: string)
    ensures "ignite rm " + (e + (" --force" + "")) == "ignite" + (" " + ("rm" + (" " + (e + (" " + "--force")))))
  {
  }

  /** Equal texts around two middles of which one ends where the other does have equal middles. */
  lemma CancelAround(l: string, a: string, b: string, r: string)
    requires l + (a + r) == l + (b + r)
    ensures a == b
  {
    assert |a| == |b|;
    assert a == (l + (a + r))[|l|..|l| + |a|];
    assert b == (l + (b + r))[|l|..|l| + |b|];
  }

  lemma RegroupAround(a: string, b: string, c: string, d: string, x: string, r: string)
    ensures a + (b + (c + ((d + x) + r))) == (a + b + c + d) + (x + r)
  {
  }

  lemma RegroupPrefix(a: string, p: string, x: string, r: string)
    ensures a + ((p + x) + r) == (a + p) + (x + r)
  {
  }

  /** The rendered name of a node is its escaped prefix followed by its ordinal. */
  lemma EscapedNodeName(clusterName: string, nodeType: string, ordinal: int)
    ensures HtmlEscape(NodeName(clusterName, nodeType, ordinal))
      == HtmlEscape(NamePrefix(clusterName, nodeType)) + Itoa(ordinal)
  {
    ItoaIsPlain(ordinal);
    HtmlEscapeAppend(NamePrefix(clusterName, nodeType), Itoa(ordinal));
    HtmlEscapeNeutral(Itoa(ordinal));
  }

  /**
   * Different ordinals get different create command lines, whatever the
   * configuration: the command a node is created with identifies it.
   */
  lemma CreateArgvsDistinct(node: NodeConfig, nodeType: string, i: int, j: int)
    requires i != j
    ensures CreateArgv(node, nodeType, i) != CreateArgv(node, nodeType, j)
  {
    if CreateArgv(node, nodeType, i) == CreateArgv(node, nodeType, j) {
      SplitInjective(RunText(node, nodeType, i), RunText(node, nodeType, j), ' ');
      RunCmdRenders(node, nodeType, i);
      RunCmdRenders(node, nodeType, j);
      EscapedNodeName(node.cluster.name, nodeType, i);
      EscapedNodeName(node.cluster.name, nodeType, j);
      var e1 := HtmlEscape(node.cluster.image);
      var p := HtmlEscape(NamePrefix(node.cluster.name, nodeType));
      var rest := " --ssh --kernel-image=" + (HtmlEscape(node.cluster.kernelImage)
        + (" --cpus=" + (HtmlEscape(Itoa(node.cpus))
        + (" --memory=" + (HtmlEscape(node.memory)
        + (" --size=" + (HtmlEscape(node.diskSize) + "")))))));
      RegroupAround("ignite run ", e1, " --name=", p, Itoa(i), rest);
      RegroupAround("ignite run ", e1, " --name=", p, Itoa(j), rest);
      CancelAround("ignite run " + e1 + " --name=" + p, Itoa(i), Itoa(j), rest);
      ItoaInjective(i, j);
    }
  }

  /** Different ordinals get different delete command lines. */
  lemma DeleteArgvsDistinct(clusterName: string, nodeType: string, i: int, j: int)
    requires i != j
    ensures DeleteArgv(NodeName(clusterName, nodeType, i)) != DeleteArgv(NodeName(clusterName, nodeType, j))
  {
    var ni, nj := NodeName(clusterName, nodeType, i), NodeName(clusterName, nodeType, j);
    if DeleteArgv(ni) == DeleteArgv(nj) {
      SplitInjective(DeleteText(ni), DeleteText(nj), ' ');
      DeleteCmdRenders(ni);
      DeleteCmdRenders(nj);
      EscapedNodeName(clusterName, nodeType, i);
      EscapedNodeName(clusterName, nodeType, j);
      var p := HtmlEscape(NamePrefix(clusterName, nodeType));
      var l, r := "ignite rm ", " --force" + "";
      RegroupPrefix(l, p, Itoa(i), r);
      RegroupPrefix(l, p, Itoa(j), r);
      CancelAround(l + p, Itoa(i), Itoa(j), r);
      ItoaInjective(i, j);
    }
  }

  // ---------------------------------------------------------------- queries

  /** The fields GetNode fetches, one query each. */
  datatype Field = SpecCpus | SpecMemory | SpecDiskSize | StatusRunning

  /** The `-t` template that selects a field from the tool's VM object. */
  function Filter(f: Field): (s: string)
    ensures |s| > 5 && s[..3] == "{{." && s[|s| - 2..] == "}}"
  {
    match f
    case SpecCpus => "{{.Spec.CPUs}}"
    case SpecMemory => "{{.Spec.Memory}}"
    case SpecDiskSize => "{{.Spec.DiskSize}}"
    case StatusRunning => "{{.Status.Running}}"
  }

  /** The presence check: the filter text cut at every single space. */
  function PresenceArgv(name: string): Argv
  {
    Split("ignite ps --all -f {{.ObjectMeta.Name}}=" + name, ' ')
  }

  /** A field query built on the argument list `cmdArgs`: one more argument, `-t <filter>`. */
  function WithFilter(cmdArgs: Argv, f: Field): (argv: Argv)
    ensures |argv| == |cmdArgs| + 1 && argv[..|cmdArgs|] == cmdArgs
    ensures argv[|cmdArgs|] == "-t " + Filter(f)
  {
    cmdArgs + ["-t " + Filter(f)]
  }

  /** A field query about node `name`: the presence check with the field's filter added. */
  function QueryArgv(name: string, f: Field): Argv
  {
    WithFilter(PresenceArgv(name), f)
  }

  /** The queries built on one argument list differ from it and from each other. */
  lemma WithFilterDistinct(cmdArgs: Argv, f: Field, g: Field)
    ensures WithFilter(cmdArgs, f) != cmdArgs
    ensures f != g ==> WithFilter(cmdArgs, f) != WithFilter(cmdArgs, g)
  {
    if f != g {
      assert WithFilter(cmdArgs, f)[|cmdArgs|] != WithFilter(cmdArgs, g)[|cmdArgs|];
    }
  }

  /** When the name has no space, the presence check is five arguments. */
  lemma PresenceArgvShape(name: string)
    requires ' ' !in name
    ensures PresenceArgv(name) == ["ignite", "ps", "--all", "-f", "{{.ObjectMeta.Name}}=" + name]
  {
    PresenceTextRegrouped(name);
    SplitFive("ignite", "ps", "--all", "-f", "{{.ObjectMeta.Name}}=" + name);
  }

  lemma PresenceTextRegrouped(name: string)
    ensures "ignite ps --all -f {{.ObjectMeta.Name}}=" + name
      == "ignite" + (" " + ("ps" + (" " + ("--all" + (" " + ("-f" + (" " + ("{{.ObjectMeta.Name}}=" + name))))))))
  {
  }

  /** Queries for different fields, and the presence check, are all different. */
  lemma QueryArgvsDistinct(name: string, f: Field, g: Field)
    ensures QueryArgv(name, f) != PresenceArgv(name)
    ensures f != g ==> QueryArgv(name, f) != QueryArgv(name, g)
  {
    WithFilterDistinct(PresenceArgv(name), f, g);
  }

  /** The unfiltered list command, before it is cut at spaces. */
  const ListText: string := "ignite ps --all"

  /** The list command; a non-empty cluster name adds a name filter and template. */
  function ListArgv(clusterName: string): Argv
  {
    Split(ListText, ' ')
      + if clusterName != "" then
          ["-f", "{{.ObjectMeta.Name}}=~" + clusterName, "-t", "{{.ObjectMeta.Name}}"]
        else []
  }

  /** The list command is `ignite ps --all`, filtered only for a non-empty name. */
  lemma ListArgvShape(clusterName: string)
    ensures clusterName == "" ==> ListArgv(clusterName) == ["ignite", "ps", "--all"]
    ensures clusterName != "" ==> ListArgv(clusterName) == ["ignite", "ps", "--all",
      "-f", "{{.ObjectMeta.Name}}=~" + clusterName, "-t", "{{.ObjectMeta.Name}}"]
  {
    SplitPsAll(ListText);
    var head := Split(ListText, ' ');
    if clusterName != "" {
      var tail := ["-f", "{{.ObjectMeta.Name}}=~" + clusterName, "-t", "{{.ObjectMeta.Name}}"];
      assert ListArgv(clusterName) == head + tail;
      AppendThreeFour("ignite", "ps", "--all", "-f", "{{.ObjectMeta.Name}}=~" + clusterName, "-t", "{{.ObjectMeta.Name}}");
    }
  }

  lemma AppendThreeFour<T>(a: T, b: T, c: T, d: T, e: T, f: T, g: T)
    ensures [a, b, c] + [d, e, f, g] == [a, b, c, d, e, f, g]
  {
  }

  lemma SplitPsAll(text: string)
    requires text == "ignite ps --all"
    ensures Split(text, ' ') == ["ignite", "ps", "--all"]
  {
    assert text == "ignite" + (" " + ("ps" + (" " + "--all")));
    SplitThree("ignite", "ps", "--all");
  }
}
