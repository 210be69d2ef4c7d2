# kubefire's Ignite node manager, modelled in Dafny

kubefire creates Kubernetes clusters on Firecracker micro-VMs. Its Ignite
node manager (`IgniteNodeManager` in `pkg/node/ignite.go`) does not hold any
state of its own. It drives the `ignite` command line through `sudo`:

- **CreateNodes** renders the create command of every node of one type from
  an `html/template` and starts them all, then waits for them all.
- **DeleteNodes** and **DeleteNode** render and run `ignite rm <name> --force`.
- **GetNode** checks that the VM is present, then queries its CPU count,
  memory, disk size and running status one field at a time. It trims each
  printed value and converts it leniently.
- **ListNodes** lists the VM names, optionally filtered by cluster name, and
  reads each of them with GetNode.

The model is made of six modules:

| module | file | what it holds |
|---|---|---|
| `GoStrings` | `go_strings.dfy` | Go's `strings.Split` (one-character separator), `TrimSpace` and `TrimSuffix`. `Join` is the inverse of `Split` and serves as its specification. |
| `GoStrconv` | `go_strconv.dfy` | `strconv.Itoa`, `ParseInt(s, 10, 64)` and `ParseBool`. Their errors are folded into `None`. |
| `HtmlTemplate` | `html_template.dfy` | Templates in parsed form (literal text and `{{.Field}}` actions). Execution stops at the first missing field, and printed values get html/template's text-context escaping. |
| `IgniteCommands` | `ignite_commands.dfy` | Node names, the two command templates `RunCmd` and `DeleteCmd`, the argument lists they render to, and the presence, field and list queries. |
| `IgniteNode` | `ignite_node.dfy` | The `data.Node` record GetNode fills in, the per-field assignment it makes, and how ListNodes reads the listed names. |
| `IgniteManager` | `ignite_manager.dfy` | The four operations and their loops, as methods. |

`wrappers.dfy` holds `Option` and `Result`.

Running a command is an oracle. A `Tool` maps the argument list given to
`sudo` to a `Reply`. It could not be started (`NotStarted`), it ran and
failed (`Failed`), or it succeeded with its standard output
(`Succeeded(stdout)`). The Go calls map onto these replies as follows:

| Go call | fails when the reply is | what happens |
|---|---|---|
| `cmd.Start` | `NotStarted` | the error is returned |
| `cmd.Wait` in a create goroutine | `Failed` | the failure is only logged |
| `cmd.Run` and `cmd.Output` | anything but `Succeeded` | the error is returned |

The oracle is a plain function of the command line. Within CreateNodes,
DeleteNodes and one GetNode no command line is issued twice:

- `CreateArgvsDistinct` and `DeleteArgvsDistinct`: different ordinals give
  different command lines.
- `QueryArgvsDistinct`: the field queries differ from each other and from
  the presence check.

ListNodes is the exception. When the list output names a node twice (for
`"a\na\n"` the names are `["a", "a"]`), it reads that node twice and so
issues the same presence check and field queries again. The model assumes
the tool answers identical queries alike within one ListNodes call.

With an empty cluster name the list command carries no `-t` name template,
so `ignite ps --all` prints its default table. ListNodes still cuts that
output at newlines, and each line of the table, headers included, is passed
to GetNode as a node name. The model keeps this: `ListedNames` does not look
at what the lines hold.

Every operation returns, besides the Go result, the command lines it issued
(or the names it read) in order. That makes the sequence of external calls
part of each method's contract.

Go's map iteration order is unspecified, and GetNode iterates over two nested
maps. The model picks the order with `:|`, so every order is covered.
`AppliedReported` proves that every order gives the same record.

Three points about the command lines:

- **Kernel arguments.** The data the create template is executed on carries
  `KernelArgs` (`pkg/node/ignite.go:48`, `:56`), but `RunCmd` has no
  `{{.KernelArgs}}` action. `IgniteCommands.CreateArgvIgnoresKernelArgs`
  states that the kernel arguments never reach the command line.
- **Whitespace in values.** The code neither escapes nor refuses values
  with white space: it renders the template, then cuts at every single
  space. `CreateArgvShape` and `DeleteArgvShape` therefore give
  the argument list only for values without spaces (`SpaceFree`). A value
  that holds a space becomes several arguments.
- **HTML escaping.** The templates come from `html/template`, so `"`, `&`,
  `'`, `+`, `<`, `>` and NUL in a value are HTML-escaped before the command
  is cut. `CreateArgvPlain` and `DeleteArgvPlain` give the verbatim command
  for values without those characters.

## Model

| member | source | states |
|---|---|---|
| GoStrings.Split | pkg/node/ignite.go:66 | cutting at a separator gives at least one piece |
| GoStrings.SplitPiecesClean | pkg/node/ignite.go:66 | no piece produced by cutting at a separator contains that separator |
| GoStrings.JoinSplit | pkg/node/ignite.go:66 | joining the pieces back with the separator restores the string, so cutting loses nothing |
| GoStrings.SplitJoin | pkg/node/ignite.go:66 | cutting a join of separator-free pieces gives exactly those pieces back, in order |
| GoStrings.SplitInjective | pkg/node/ignite.go:125 | two rendered commands that cut into the same argument list are the same text |
| GoStrings.TrimLeftShape | pkg/node/ignite.go:178 | left trimming returns a suffix, cuts only white space and leaves no leading white space |
| GoStrings.TrimRightShape | pkg/node/ignite.go:178 | right trimming returns a prefix, cuts only white space and leaves no trailing white space |
| GoStrings.TrimSpace | pkg/node/ignite.go:178 | Go's `strings.TrimSpace`, white space cut off both ends; it carries no contract of its own, TrimSpaceShape and TrimSpaceOf state what it does |
| GoStrings.TrimSpaceShape | pkg/node/ignite.go:178 | TrimSpace keeps a slice of its input surrounded by white space only, and the slice neither starts nor ends with white space |
| GoStrings.TrimSpaceOf | pkg/node/ignite.go:178 | any white space around a core that does not start or end with white space is removed, and the core is kept |
| GoStrings.TrimSpaceIdempotent | pkg/node/ignite.go:178 | trimming twice gives what trimming once gives |
| GoStrings.TrimSuffix | pkg/node/ignite.go:178 | the result is the input, or the input with the suffix cut off; the suffix is cut whenever it is there |
| GoStrings.TrimSuffixNewlineAfterTrimSpace | pkg/node/ignite.go:178 | removing a trailing newline after TrimSpace never changes anything |
| GoStrconv.Itoa | pkg/node/ignite.go:53 | the result is non-empty decimal digits, with a leading minus exactly for negative numbers |
| GoStrconv.ParseInt | pkg/node/ignite.go:186 | a value is produced exactly for an optionally signed, non-empty run of decimal digits whose value lies in the int64 range, and that value is the digits' decimal value with the sign applied |
| GoStrconv.ParseIntItoa | pkg/node/ignite.go:186 | parsing what Itoa prints gives back every int64 |
| GoStrconv.ItoaInjective | pkg/node/ignite.go:53 | different ordinals print differently |
| GoStrconv.ParseBool | pkg/node/ignite.go:191 | a value is produced exactly for Go's twelve spellings `1 t T TRUE true True 0 f F FALSE false False`; it is true exactly when the text starts with `1`, `t` or `T`, and false exactly when it starts with `0`, `f` or `F` |
| GoStrconv.ParseBoolFormatBool | pkg/node/ignite.go:191 | ParseBool reads back both printed booleans |
| HtmlTemplate.HtmlEscape | pkg/node/ignite.go:62 | escaping a value never shortens it |
| HtmlTemplate.Execute | pkg/node/ignite.go:62 | an execution error names a field that the template uses and the data does not define |
| HtmlTemplate.EscapeChar | pkg/node/ignite.go:62 | a character is replaced by non-empty text; it is kept as it is exactly when it is not special, and the text holds a space exactly when the character is one |
| HtmlTemplate.HtmlEscapeKeepsSpaces | pkg/node/ignite.go:62 | escaping a value neither creates nor removes a space, so it does not change where the command is cut |
| HtmlTemplate.HtmlEscapeNeutral | pkg/node/ignite.go:62 | a value without HTML-special characters is printed unchanged |
| HtmlTemplate.HtmlEscapeAppend | pkg/node/ignite.go:62 | escaping a concatenation is concatenating the escapes |
| HtmlTemplate.ExecuteFailsOnFirstMissingField | pkg/node/ignite.go:62-64 | execution succeeds exactly when every field the template names is defined; otherwise the error names the first missing field |
| HtmlTemplate.ExecuteReadsOnlyNamedFields | pkg/node/ignite.go:62 | two data maps that agree on the fields the template names render alike |
| IgniteCommands.NodeName | pkg/node/ignite.go:53 | a node name is the `<cluster>-<type>-` prefix followed by the printed ordinal |
| IgniteCommands.NodeNamesDistinct | pkg/node/ignite.go:53 | different ordinals give different node names |
| IgniteCommands.OrdinalOfNodeName | pkg/node/ignite.go:53 | the ordinal can be read back from a node name, for every int64 ordinal |
| IgniteCommands.RunData | pkg/node/ignite.go:44-60 | the data the create template is executed on defines every field the template names |
| IgniteCommands.RunText | pkg/node/ignite.go:62-64 | executing the create template on a node's data always succeeds, so the template error branch cannot be taken |
| IgniteCommands.RunCmdRenders | pkg/node/ignite.go:20 | the create template renders to `ignite run <image> --name=<name> --ssh --kernel-image=<kernel> --cpus=<n> --memory=<m> --size=<d>` with each value escaped |
| IgniteCommands.CreateArgv | pkg/node/ignite.go:66 | the create command line: the rendered template cut at every single space; it carries no contract of its own, CreateArgvShape and CreateArgvPlain state its arguments |
| IgniteCommands.CreateArgvShape | pkg/node/ignite.go:66 | when no value holds a space, the create command is exactly nine arguments, in template order |
| IgniteCommands.CreateArgvPlain | pkg/node/ignite.go:44-66 | when no value holds a space or an HTML-special character, the nine arguments carry the configured values verbatim |
| IgniteCommands.CreateArgvIgnoresKernelArgs | pkg/node/ignite.go:44-60 | the kernel arguments of the cluster never change the create command |
| IgniteCommands.CreateArgvsDistinct | pkg/node/ignite.go:41-66 | different ordinals of one node type get different create commands, whatever the configuration |
| IgniteCommands.DeleteText | pkg/node/ignite.go:121-123 | executing the delete template always succeeds |
| IgniteCommands.DeleteCmdRenders | pkg/node/ignite.go:21 | the delete template renders to `ignite rm <escaped name> --force` |
| IgniteCommands.DeleteArgv | pkg/node/ignite.go:125 | the delete command line: the rendered delete template cut at every single space; it carries no contract of its own, DeleteArgvShape and DeleteArgvPlain state its arguments |
| IgniteCommands.DeleteArgvShape | pkg/node/ignite.go:125 | a name without a space gives exactly the four arguments `ignite rm <escaped name> --force` |
| IgniteCommands.DeleteArgvPlain | pkg/node/ignite.go:125 | a name without a space or an HTML-special character is passed verbatim |
| IgniteCommands.DeleteArgvsDistinct | pkg/node/ignite.go:96-98 | different ordinals get different delete commands |
| IgniteCommands.Filter | pkg/node/ignite.go:152-161 | the `-t` template of each field is a Go template action `{{.…}}` |
| IgniteCommands.PresenceArgv | pkg/node/ignite.go:139 | the presence check: the formatted `ignite ps` command cut at every single space; it carries no contract of its own, PresenceArgvShape states its arguments |
| IgniteCommands.QueryArgv | pkg/node/ignite.go:167-168 | the query for one field is the presence check with `-t <filter>` appended, as WithFilter states; it carries no contract of its own |
| IgniteCommands.WithFilter | pkg/node/ignite.go:167-168 | a field query is the presence check unchanged plus one argument, `-t ` followed by the field's filter |
| IgniteCommands.WithFilterDistinct | pkg/node/ignite.go:166-168 | a field query differs from the presence check, and queries for different fields differ |
| IgniteCommands.PresenceArgvShape | pkg/node/ignite.go:139 | for a name without a space, the presence check is `ignite ps --all -f {{.ObjectMeta.Name}}=<name>` |
| IgniteCommands.QueryArgvsDistinct | pkg/node/ignite.go:166-170 | the four field queries about a node and its presence check are pairwise different |
| IgniteCommands.ListArgv | pkg/node/ignite.go:204-214 | the list command line; it carries no contract of its own, ListArgvShape states it |
| IgniteCommands.ListArgvShape | pkg/node/ignite.go:204-214 | the list command is `ignite ps --all`; a name filter and a name template are added exactly when the cluster name is non-empty |
| IgniteNode.EmptyNode | pkg/node/ignite.go:146-150 | the record GetNode starts from: the name asked for and every other field zero; it carries no contract of its own |
| IgniteNode.FieldValue | pkg/node/ignite.go:178 | the value read from a query is its output with white space trimmed at both ends; the extra newline cut is a no-op |
| IgniteNode.FieldValueTrimmed | pkg/node/ignite.go:178 | a printed value surrounded by white space, such as a line ending, is read without it |
| IgniteNode.Assign | pkg/node/ignite.go:180-194 | assigning a field changes that field only; the name and the other fields are kept |
| IgniteNode.AssignCommutes | pkg/node/ignite.go:163-196 | assignments to different fields can be made in either order |
| IgniteNode.AssignStringField | pkg/node/ignite.go:182-183 | memory and disk size take the printed value, whatever it is |
| IgniteNode.AssignCpusLenient | pkg/node/ignite.go:185-188 | the CPU count becomes the parsed value when the text parses as an int64, and the record is unchanged otherwise |
| IgniteNode.AssignCpusItoa | pkg/node/ignite.go:185-188 | a CPU count printed in decimal within int64 is read back exactly |
| IgniteNode.CpusFromLine | pkg/node/ignite.go:178-188 | a CPU count printed with a line ending is read back exactly |
| IgniteNode.CpusUnparsed | pkg/node/ignite.go:178-188 | any printed CPU count whose trimmed value does not parse leaves the count of a fresh record at zero rather than failing |
| IgniteNode.CpusNotANumber | pkg/node/ignite.go:178-188 | the printed text `not-a-number` with its newline leaves the CPU count at zero (the general case is CpusUnparsed) |
| IgniteNode.AssignRunning | pkg/node/ignite.go:190-193 | running becomes true for the six spellings of true and false for the six spellings of false, and is kept for any other text |
| IgniteNode.AssignRunningFormatBool | pkg/node/ignite.go:190-193 | a printed boolean is read back exactly |
| IgniteNode.ListedNames | pkg/node/ignite.go:226-227 | empty output lists no name, and any non-empty output lists at least one |
| IgniteNode.ListedNamesBlank | pkg/node/ignite.go:226-227 | output that is only white space lists one node, the empty name |
| IgniteNode.ListedNamesOfLines | pkg/node/ignite.go:227 | names printed one per line, each ending in a newline, are listed back exactly and in order |
| IgniteManager.NodeNames | pkg/node/ignite.go:41-53 | the names of one node type are those of ordinals 1 to count, none when count is not positive |
| IgniteManager.NodeNamesUnique | pkg/node/ignite.go:53 | the names of the nodes of one type are pairwise different |
| IgniteManager.CreateCommand | pkg/node/ignite.go:62-66 | rendering and cutting gives the create command of the ordinal |
| IgniteManager.StartAll | pkg/node/ignite.go:41-75 | starts the create commands of ordinals 1, 2, … in order; succeeds exactly when all count of them started, and otherwise stops at and reports the first that did not |
| IgniteManager.WaitAll | pkg/node/ignite.go:77-88 | a node name is logged exactly when its started command failed, and nothing else is logged |
| IgniteManager.WaitStarted | pkg/node/ignite.go:68-88 | waits only for the commands that started; over all commands issued, a node name is logged exactly when its command failed, since the one that did not start did not fail |
| IgniteManager.CreateAll | pkg/node/ignite.go:41-88 | CreateNodes over any create command per ordinal and any distinct node names: the commands issued, the start failure returned, and the failures logged |
| IgniteManager.CreateNodes | pkg/node/ignite.go:31-91 | issues the create commands of ordinals 1, 2, … in order; the result is success exactly when all count of them started, and otherwise the first that did not start is returned; in both cases the goroutines of the commands that started log exactly the nodes whose command failed |
| IgniteManager.DeleteNode | pkg/node/ignite.go:106-134 | runs the rendered delete command of the name and succeeds exactly when it succeeds, returning that command otherwise |
| IgniteManager.DeleteOrdinal | pkg/node/ignite.go:97-100 | deletes the node of one ordinal, with DeleteNode's outcome |
| IgniteManager.DeleteEach | pkg/node/ignite.go:96-103 | runs the delete commands of ordinals 1, 2, … in order and stops at the first failure, which it returns |
| IgniteManager.DeleteNodes | pkg/node/ignite.go:93-104 | issues the delete commands of ordinals 1, 2, … in order; succeeds exactly when all count of them succeed, and otherwise returns the first failure unchanged without trying the later nodes |
| IgniteManager.Reported | pkg/node/ignite.go:146-194 | the record after reading a set of fields keeps the name asked for, and is the empty record when nothing has been read |
| IgniteManager.ReportedStep | pkg/node/ignite.go:180-194 | reading one more field into the record of the fields read so far gives the record of the larger set |
| IgniteManager.Applied | pkg/node/ignite.go:146-150 | a record built by assignments keeps the name asked for |
| IgniteManager.AppliedReported | pkg/node/ignite.go:163-166 | reading the fields in any order, each once, gives the record determined by the set of fields read |
| IgniteManager.GroupList | pkg/node/ignite.go:152-161 | a group lists each of its fields exactly once: the three spec fields, or running |
| IgniteManager.Queries | pkg/node/ignite.go:166-170 | the field queries issued, one per field in reading order |
| IgniteManager.ReadField | pkg/node/ignite.go:166-194 | queries one field; on success the field is assigned its trimmed value, and on failure the failing query is returned |
| IgniteManager.ReadGroup | pkg/node/ignite.go:166-195 | queries each field of a group once, in an arbitrary order, and stops at the first failing query, which it returns |
| IgniteManager.ReadFields | pkg/node/ignite.go:163-196 | reads both groups in an arbitrary order; succeeds exactly when every field query succeeds, with every field read once |
| IgniteManager.ReadOutcome | pkg/node/ignite.go:163-198 | restates the reading outcome over the commands issued: every command before the last succeeded, and a failure is the last query |
| IgniteManager.ReadNode | pkg/node/ignite.go:146-198 | after a successful presence check, the node is read exactly when all four queries succeed, and its record is the one determined by the printed values whatever the order |
| IgniteManager.GetNode | pkg/node/ignite.go:136-199 | a failed presence check is returned before any query; otherwise the node is read exactly when every query succeeds, and any other error is the failed field query about this node that was run last (GetNodeError) |
| IgniteManager.Fetched | pkg/node/ignite.go:229-233 | the record GetNode returns for a name that can be read keeps that name |
| IgniteManager.Readable | pkg/node/ignite.go:139-176 | a name can be read when its presence check and all four field queries succeed |
| IgniteManager.GetNodeError | pkg/node/ignite.go:139-172 | the errors GetNode can return for a node: a failed command that is the presence check when that check fails, and otherwise one of the node's field queries |
| IgniteManager.FetchedInOrder | pkg/node/ignite.go:229-236 | the outcome of reading names in order with GetNode: every record when each name can be read, else an error GetNode returns for the first that cannot (GetNodeError: its failed presence check, or a failed field query when the check succeeded), with the names before it readable |
| IgniteManager.FetchNode | pkg/node/ignite.go:229-233 | GetNode's record when the node can be read; otherwise an error GetNode returns for it (GetNodeError): the failed presence check, or a failed field query when the check succeeded |
| IgniteManager.FetchAll | pkg/node/ignite.go:229-236 | reads the listed names in order and stops at the first that cannot be read, returning an error GetNode returns for it (GetNodeError) |
| IgniteManager.FetchNodes | pkg/node/ignite.go:229-236 | the node records of all names, in order, exactly when every name can be read; otherwise an error GetNode returns for the first name that cannot be read (GetNodeError: its failed presence check, or a failed field query when the check succeeded), with every earlier name readable |
| IgniteManager.ListNodes | pkg/node/ignite.go:201-240 | a failed list command is returned; otherwise the listed names are read in order, and the result is their records exactly when each can be read, else an error GetNode returns for the first name that cannot be read (GetNodeError) |

## Left out

- Starting processes, `sudo`, and wiring standard output and error to the terminal: replaced by the `Tool` oracle.
- Logging through logrus: only the failures CreateNodes logs are kept, as the set `logged`.
- Goroutines and the WaitGroup in CreateNodes: the model starts every command, then waits for every command. The interleaving of concurrent waits is not modelled, and neither is a hang of `cmd.Wait`.
- Go's reflection in GetNode: replaced by the field table `Field` and the assignment `IgniteNode.Assign`, which follows the kind of each field (string, int or bool).
- The fields of `config.Node` that GetNode never sets stay zero and are not modelled; `data.Node` carries only the name, the reported spec and the running status.
- The platform `int` width: ordinals and CPU counts are unbounded integers. ParseInt's int64 range and its range error are modelled.
- The template parse and execute errors in CreateNodes and DeleteNode: RunText and DeleteText prove that execution succeeds, so these branches are unreachable and carry no error variant.
- The substring or regular-expression match `=~` that the list command's name filter asks for: it is performed by the `ignite` tool, which is part of the oracle.
- `errors.WithStack` wrapping: every error is modelled as the command line that failed. The unwrapped error GetNode returns for a failed presence check is the same value in the model.
- `cmd/kubefire/cmd/uninstall.go` (downloading and running an uninstall script) is not part of this model.
- IgniteManager.CreateNodes: after a start failure the Go method returns at once, and the goroutines of the commands already started log their failures later. The model returns `logged` together with the error, so it says which nodes are logged but not that the log lines may come after the return.
- IgniteManager.ListNodes: a node the list output names twice is read twice with the same command lines; the oracle gives both reads the same answer, so a VM that changes between the two reads is not modelled.
- Standard output is modelled as decoded text (`string`, a sequence of characters). The Go code reads bytes, and `string(output)` with `strings.TrimSpace` treats them as UTF-8; invalid byte sequences and the byte-level form are not modelled.
- GoStrconv.ParseInt: underscores and base prefixes are not accepted, as with an explicit base of 10. The distinction between syntax and range errors is not kept, because GetNode ignores both.
- IgniteNode.ListedNames: its own contract says only when the list is empty; the listed names themselves are given by IgniteNode.ListedNamesOfLines and IgniteNode.ListedNamesBlank.
- GoStrings.Split: its own contract gives only that there is at least one piece; its meaning is given by GoStrings.JoinSplit, GoStrings.SplitJoin and GoStrings.SplitPiecesClean.
- IgniteManager.Applied: its own contract gives only that the name is kept; the record it builds is given by IgniteManager.AppliedReported.
