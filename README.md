# AtlasAI task workflow engine, in Dafny

AtlasAI's task workflow engine reads a Markdown workflow document and runs it. A `## Metadata` section holds `key: value` lines. Each task opens with a marker `[TASK id="…" depends="…"]`. A `###` title, a description and fenced command blocks follow the marker. The parser turns the document into a `TaskGraph`: tasks by id, plus one edge from each dependency to its dependent. The executor then runs the graph in rounds. Each round it takes every task whose dependencies are completed and runs that task's commands in order. A command starting with `atlasai` goes to the AI agent as a `--query`. Any other command goes to the shell, inside the executor's working directory. Once a task's commands have run, the task is marked completed. A generator writes an example workflow document.

The project has five modules:

- `Text` (`text.dfy`) covers the Python string operations the engine uses:
  - `strip` and `lstrip`;
  - `split` with and without a limit;
  - `join`, `in`, `startswith` and `replace`;
  - decimal printing of integers.
- `Digraph` (`digraph.dfy`) covers dependency cycles and topological orders. It replaces the graph library's cycle listing and topological sort with Kahn's algorithm, proved correct.
- `TaskDocument` (`task_document.dfy`) is the reading of the document. Each regular expression of `parse_task_file` becomes an exact scanner with lemmas about its result:
  - the task marker with its lazy body;
  - `depends` splitting;
  - title;
  - description;
  - fenced commands;
  - metadata section, found by trying each start position in turn, as the regular expression search does.
- `TaskParser` (`task_parser.dfy`) holds the `TaskDefinition` and `TaskGraph` classes and `parse_task_file`. The graph's value `Built(specs)` is defined by registering tasks in order, and the methods are proved to produce it.
- `TaskExecution` (`task_executor.dfy`) is the executor. The operating system is a `Process` object: current directory, existing directories, and a log of observable events. The shell runner, the agent and the confirmation prompt are function parameters in a `Services` value.
- `TaskTemplate` (`task_template.dfy`) is `generate_task_template`, plus the proof that its output parses back into the documented workflow and that this workflow has no dependency cycle.

The final entry of a generated template describes itself as depending on all previous tasks (`atlasai/task/task_executor.py:220`). Its `depends` attribute, built at `atlasai/task/task_executor.py:214-216` from `range(1, num_tasks)`, lists `task1` … `task<N-1>` and leaves out `task<N>`. The comment above that code (`atlasai/task/task_executor.py:214`) speaks of "multiple previous tasks", which the code does. The model follows the code. `TemplateTasks` states that `final` depends on `TaskIds(N - 1)`, and `TemplateAcyclic` proves that the resulting graph has no cycle.

## Model

| member | source | states |
|---|---|---|
| Text.StripSpec | atlasai/task/task_parser.py:113 | `strip` returns a contiguous slice of its input; only stripped characters are cut at either end, and the result neither starts nor ends with one |
| Text.StripIdempotent | atlasai/task/task_parser.py:116 | stripping twice is stripping once |
| Text.StripStartSpec | atlasai/task/task_parser.py:119 | `lstrip` drops exactly the longest prefix of stripped characters |
| Text.StripEndSpec | atlasai/task/task_parser.py:113 | `rstrip` drops exactly the longest suffix of stripped characters |
| Text.IndexOf | atlasai/task/task_parser.py:103 | the first occurrence of a character, or the length when absent |
| Text.LastIndexOf | atlasai/task/task_parser.py:123 | the last occurrence of a character, or -1 when absent |
| Text.WordPrefix | atlasai/task/task_parser.py:128 | the longest prefix of `\w` characters |
| Text.Find | atlasai/task/task_parser.py:124 | the first position where a pattern starts, or the length when there is none |
| Text.FindContains | atlasai/task/task_executor.py:143 | the search finds a position exactly when the pattern occurs (Python `in`) |
| Text.SplitNPieces | atlasai/task/task_executor.py:111 | `split(sep, n)` gives at most n+1 pieces, and all but the last are free of the separator |
| Text.JoinSplitN | atlasai/task/task_executor.py:111 | joining the pieces of a limited split with the separator gives back the string |
| Text.SplitJoinN | atlasai/task/task_executor.py:111 | splitting a join of separator-free pieces with a large enough limit gives back the pieces |
| Text.SplitJoin | atlasai/task/task_parser.py:116 | splitting a join of separator-free pieces gives back the pieces |
| Text.ReplaceAbsent | atlasai/task/task_parser.py:95 | replacing a pattern whose first character does not occur leaves the text unchanged |
| Text.ReplaceLeading | atlasai/task/task_parser.py:95 | a leading occurrence of the pattern is replaced and the rest is replaced on its own |
| Text.SplitThree | atlasai/task/task_executor.py:111-112 | a command split into three parts is first word, separator, second word, separator, rest |
| Text.NatToString | atlasai/task/task_executor.py:198 | a number prints as a non-empty run of decimal digits |
| Text.NatToStringInjective | atlasai/task/task_executor.py:198 | different numbers print differently |
| Digraph.TopologicalSort | atlasai/task/task_parser.py:66-77 | sorting succeeds iff the graph has no cycle; a success is a permutation of the nodes with every edge going forward; a failure leaves unsorted nodes that contain a cycle |
| Digraph.FindSource | atlasai/task/task_parser.py:75 | finds the first pending node with no incoming edge from a pending node, or reports that there is none |
| Digraph.KahnStep | atlasai/task/task_parser.py:75 | moving such a source to the order keeps the multiset of nodes, keeps every edge forward, and no edge goes back from a pending node |
| Digraph.TopologicalOrderAcyclic | atlasai/task/task_parser.py:70-72 | a graph whose edges all go forward in some order has no cycle |
| Digraph.NoClosingEdge | atlasai/task/task_parser.py:70-72 | along a path in such an order, no edge leads back to the start |
| Digraph.PathClimbs | atlasai/task/task_parser.py:70-72 | positions in such an order strictly increase along a path |
| Digraph.NoSourceHasCycle | atlasai/task/task_parser.py:70-77 | a non-empty node set in which every node has a predecessor contains a cycle |
| Digraph.WalkBack | atlasai/task/task_parser.py:70-77 | walking back through predecessors inside such a set reaches a cycle within it |
| Digraph.DistinctSize | atlasai/task/task_parser.py:66-77 | a duplicate-free sequence has as many distinct members as elements |
| TaskDocument.Marker | atlasai/task/task_parser.py:107 | a recognised marker is exactly `[TASK id="…" depends="…"]` followed by the rest, with a non-empty, quote-free id and a quote-free `depends` |
| TaskDocument.MarkerRoundTrip | atlasai/task/task_parser.py:107 | a written marker is read back with its id, its `depends` and the text after it |
| TaskDocument.BodyLength | atlasai/task/task_parser.py:107 | a task body ends at the first `[` followed by optional blanks and `TASK`, or at the end of the document |
| TaskDocument.BodyLengthSkip | atlasai/task/task_parser.py:107 | text without `[` never ends a body |
| TaskDocument.TaskBlocksSkip | atlasai/task/task_parser.py:107-108 | text without `[` before the first marker adds no task |
| TaskDocument.TaskBlocksMarker | atlasai/task/task_parser.py:107-113 | a marker whose body runs to the next marker or the end yields one task block with that id, `depends` and body, then the blocks of the rest |
| TaskDocument.TrimmedNonEmptySpec | atlasai/task/task_parser.py:116 | a string is kept iff it is the non-empty stripped form of some piece; every kept string is already stripped; no more are kept than there are pieces (the order is fixed piece by piece by `TrimmedNonEmptyOne` and `TrimmedNonEmptyAppend`) |
| TaskDocument.TrimmedNonEmpty | atlasai/task/task_parser.py:116 | the list comprehension keeping stripped non-empty pieces; its meaning is `TrimmedNonEmptySpec` |
| TaskDocument.TrimmedNonEmptyOne | atlasai/task/task_parser.py:116 | one piece is kept, stripped, iff it is non-empty once stripped |
| TaskDocument.TrimmedNonEmptyAppend | atlasai/task/task_parser.py:116 | the pieces kept from a concatenation are those kept from each part, in order |
| TaskDocument.Dependencies | atlasai/task/task_parser.py:116 | `depends` split at commas and filtered as above; `DependenciesOfJoin` reads a written list back |
| TaskDocument.TrimmedPieces | atlasai/task/task_parser.py:116 | pieces that are stripped ids, all but the first after a blank, filter back to the ids |
| TaskDocument.TaskBlocks | atlasai/task/task_parser.py:107-108 | the markers found in order, each with its lazy body; `TaskBlocksSkip` and `TaskBlocksMarker` state what is read |
| TaskDocument.DependenciesOfJoin | atlasai/task/task_parser.py:116 | a `, `-joined list of stripped, comma-free, non-empty ids reads back as that list |
| TaskDocument.TitleOfHeading | atlasai/task/task_parser.py:119-120 | the title is the stripped text after the first `###` and its blanks, up to the end of that line |
| TaskDocument.Title | atlasai/task/task_parser.py:119-120 | the title search, or `Task <id>` without a heading; `TitleOfHeading` states what is read |
| TaskDocument.DescriptionOfHeading | atlasai/task/task_parser.py:123-124 | the description is the body without its heading line, cut before the first fence, stripped |
| TaskDocument.DropHeadingLine | atlasai/task/task_parser.py:123 | removing the heading drops the first `###` through the end of its line, and nothing else |
| TaskDocument.DropHeading | atlasai/task/task_parser.py:123 | the one-shot removal of the heading line; `DropHeadingLine` states what is removed |
| TaskDocument.Description | atlasai/task/task_parser.py:123-124 | the description; `DescriptionOfHeading` states what is read |
| TaskDocument.BeforeFenceOf | atlasai/task/task_parser.py:124 | splitting at the first fence keeps the text before it |
| TaskDocument.BeforeFence | atlasai/task/task_parser.py:124 | the text before the first fence; `BeforeFenceOf` states it |
| TaskDocument.FenceBodiesBlock | atlasai/task/task_parser.py:128-131 | a fenced block with an optional language tag reads as its inner text, followed by the blocks of the rest |
| TaskDocument.FenceBodyFromBlock | atlasai/task/task_parser.py:128 | after a fence, the tag and blanks are skipped and the body runs to the closing fence |
| TaskDocument.FenceBodiesNone | atlasai/task/task_parser.py:128 | text without a backtick has no command block |
| TaskDocument.FenceBodies | atlasai/task/task_parser.py:128 | the bodies of the fenced blocks, scanned left to right; `FenceBodiesBlock` and `FenceBodiesNone` state what is read |
| TaskDocument.FenceBodyFromFound | atlasai/task/task_parser.py:128 | with a closing fence found, the body is the text up to it and the scan resumes after it |
| TaskDocument.Commands | atlasai/task/task_parser.py:127-131 | the stripped, non-blank lines of every fenced body, in order; `TaskParser.ExtractCommands` is proved to compute it |
| TaskDocument.ToSpec | atlasai/task/task_parser.py:110-140 | a block becomes a task with its id, title, description, dependencies and commands; `BlockSpecsAt` states it for a whole document |
| TaskDocument.WordPrefixSkip | atlasai/task/task_parser.py:128 | the language tag is the whole run of word characters |
| TaskDocument.BlockSpecsAt | atlasai/task/task_parser.py:110-143 | the k-th task built is the task of the k-th block found |
| TaskDocument.FallbackMetadataSpec | atlasai/task/task_parser.py:99-104 | a key is present iff some line with a colon has it before its first colon; its value comes from the last such line |
| TaskDocument.MetadataSection | atlasai/task/task_parser.py:91 | the `## Metadata` search; `MetadataSectionOf` and `MetadataSectionMissing` state what it finds |
| TaskDocument.SectionFrom | atlasai/task/task_parser.py:91 | the search tries each start position in turn; `SectionFromSkip`, `SectionFromOf` and `SectionFromMissing` state it |
| TaskDocument.AfterHeading | atlasai/task/task_parser.py:91 | after the heading, blanks up to their last newline, then the lazy body up to the first `##`; `AfterHeadingBody` and `AfterHeadingNoEnd` state it |
| TaskDocument.MetadataSectionOf | atlasai/task/task_parser.py:91 | a heading after text without `#`, blanks ending in a newline, a body without `#` and then `##` give exactly that body |
| TaskDocument.MetadataSectionMissing | atlasai/task/task_parser.py:91 | a heading with no `##` after it, and none before it, gives no section |
| TaskDocument.SectionFromSkip | atlasai/task/task_parser.py:91 | start positions where the heading does not occur change nothing |
| TaskDocument.SectionFromOf | atlasai/task/task_parser.py:91 | the first occurrence of a heading followed by blanks, a newline, a body and `##` yields that body |
| TaskDocument.SectionFromMissing | atlasai/task/task_parser.py:91 | a heading occurring once, with no `#` after it, yields nothing |
| TaskDocument.NoHeadingIn | atlasai/task/task_parser.py:91 | text without the heading's first character holds no occurrence of it |
| TaskDocument.MetadataHeadingOnce | atlasai/task/task_parser.py:91 | `## Metadata` does not occur again inside itself followed by text without `#` |
| TaskDocument.AfterHeadingOf | atlasai/task/task_parser.py:91 | blanks ending in a newline, then text not starting with a blank: the body starts right after that newline |
| TaskDocument.AfterHeadingBody | atlasai/task/task_parser.py:91 | blanks, a newline, a body without `#` and then `##` give exactly that body |
| TaskDocument.AfterHeadingNoEnd | atlasai/task/task_parser.py:91 | text without `#` has no section end |
| TaskDocument.BlankRun | atlasai/task/task_parser.py:91 | the length of the leading blank run |
| TaskDocument.BlankRunStrips | atlasai/task/task_parser.py:91 | dropping the leading blank run is `lstrip` |
| TaskDocument.YamlText | atlasai/task/task_parser.py:95 | the stripped, non-blank lines of the section with every `- ` removed, joined by newlines; `YamlTextItem` states it for a list item |
| TaskDocument.YamlTextItem | atlasai/task/task_parser.py:95 | a line `- key: value` becomes `key: value` |
| TaskParser.TaskDefinition.constructor | atlasai/task/task_parser.py:10-17 | a task holds the given fields and starts not completed |
| TaskParser.AddDependencyNodesSpec | atlasai/task/task_parser.py:33-35 | adding dependency nodes keeps nodes duplicate-free, keeps the old nodes as a prefix, and adds exactly the non-empty dependencies |
| TaskParser.AddShapeSpec | atlasai/task/task_parser.py:27-35 | registering a task: it replaces any task with its id; its id joins the id order only if new; its node and its non-empty dependencies become nodes; it gains an edge from each non-empty dependency |
| TaskParser.AddShapeValid | atlasai/task/task_parser.py:27-35 | registering a task keeps the graph well formed (ids match keys, order lists the keys once, nodes distinct, edges between nodes, every dependency edge present) and keeps the old nodes as a prefix |
| TaskParser.BuiltValid | atlasai/task/task_parser.py:133-143 | any graph built by registering tasks is well formed |
| TaskParser.BuiltSpecs | atlasai/task/task_parser.py:29 | the graph holds an id iff some registered task has it, and then holds the last task registered with it |
| TaskParser.AddShape | atlasai/task/task_parser.py:27-35 | one registration; `AddShapeSpec` states its effect |
| TaskParser.Built | atlasai/task/task_parser.py:133-143 | registering the tasks in order from an empty graph; `BuiltSpecs`, `BuiltEdges` and `BuiltNodes` state the result |
| TaskParser.BuiltStoredSpecs | atlasai/task/task_parser.py:29 | the task map built is the map of each id to the last task registered with it |
| TaskParser.StoredSpecsLast | atlasai/task/task_parser.py:29 | that map holds an id iff some task has it, and then the last such task |
| TaskParser.AddDependencyNodesMembers | atlasai/task/task_parser.py:33-35 | the nodes after adding dependencies are the old nodes and the non-empty dependencies |
| TaskParser.BuiltEdges | atlasai/task/task_parser.py:33-35 | there is an edge a→b iff some task with id b lists a as a non-empty dependency |
| TaskParser.BuiltNodes | atlasai/task/task_parser.py:30-35 | the nodes are exactly the task ids and their non-empty dependencies |
| TaskParser.LinkDependencies | atlasai/task/task_parser.py:30-35 | the loop adds the task's node, each dependency's node and each dependency's edge, as `AddShape` says |
| TaskParser.GrowsShrinksPending | atlasai/task/task_parser.py:57-60 | completion only growing means the pending set only shrinks |
| TaskParser.CompletingShrinksPending | atlasai/task/task_parser.py:57-60 | completing a pending task strictly shrinks the pending set |
| TaskParser.TaskGraph.constructor | atlasai/task/task_parser.py:22-25 | a new graph is empty, with no metadata |
| TaskParser.TaskGraph.ValidRunnable | atlasai/task/task_parser.py:27-35 | a well-formed graph has the properties the scheduler relies on |
| TaskParser.TaskGraph.AddTask | atlasai/task/task_parser.py:27-35 | the graph becomes `AddShape` of the old one, the task map gains the task under its id, metadata is unchanged, and the graph stays well formed |
| TaskParser.ReadyAmongMembers | atlasai/task/task_parser.py:41-53 | the ready list holds exactly the listed ids that are ready |
| TaskParser.TaskGraph.GetNextTasks | atlasai/task/task_parser.py:37-55 | returns the ready tasks in the map's order; a task is listed iff it is not completed and each of its dependencies present in the map is completed |
| TaskParser.TaskGraph.IsReadyUnder | atlasai/task/task_parser.py:42-53 | a task is ready in the graph iff it is ready under the graph's completion flags |
| TaskParser.TaskGraph.MarkAsCompleted | atlasai/task/task_parser.py:57-60 | a known task becomes completed and no other flag changes; an unknown id changes nothing |
| TaskParser.TaskGraph.AllTasksCompleted | atlasai/task/task_parser.py:62-64 | true iff no task is pending, and true for an empty graph |
| TaskParser.TaskGraph.ReadyIsPending | atlasai/task/task_parser.py:42-43 | a ready task is pending |
| TaskParser.TaskGraph.PendingIsStatus | atlasai/task/task_parser.py:62-64 | the pending set is what the completion flags say |
| TaskParser.TaskGraph.PendingBound | atlasai/task/task_parser.py:62-64 | there are never more pending tasks than tasks |
| TaskParser.TaskGraph.PendingEmpty | atlasai/task/task_parser.py:62-64 | nothing is pending iff every task is completed |
| TaskParser.TaskGraph.StuckMeansCycle | atlasai/task/task_parser.py:37-55 | when tasks are pending but none is ready, the pending tasks contain a dependency cycle |
| TaskParser.TaskGraph.NothingReadyMeansCycle | atlasai/task/task_executor.py:63-67 | an empty ready list while tasks remain means the graph has a cycle |
| TaskParser.TaskGraph.GetExecutionOrder | atlasai/task/task_parser.py:66-77 | reports a cycle error iff the graph has a cycle; otherwise returns a topological order of the graph's nodes |
| TaskParser.FirstColonSplit | atlasai/task/task_parser.py:102-104 | a metadata line splits at its first colon into a stripped key and a stripped value |
| TaskParser.ParseMetadata | atlasai/task/task_parser.py:90-104 | returns the loader's map, the fallback `key: value` scan when the loader fails, and nothing without a metadata section |
| TaskParser.FallbackScan | atlasai/task/task_parser.py:100-104 | the loop builds exactly the fallback map of `FallbackMetadataSpec` |
| TaskParser.ExtractCommands | atlasai/task/task_parser.py:126-131 | collects the stripped, non-blank lines of every fenced block, in order |
| TaskParser.NewTask | atlasai/task/task_parser.py:133-140 | a new, not completed task with the block's id, title, description, dependencies and commands |
| TaskParser.AddBlock | atlasai/task/task_parser.py:133-143 | registering one more block extends the built graph by that block's task, leaving metadata and completion alone |
| TaskParser.BuildGraph | atlasai/task/task_parser.py:106-143 | the graph is the one built from the document's blocks in order, well formed, with the given metadata and no task completed |
| TaskParser.ParseTaskFile | atlasai/task/task_parser.py:79-145 | the parsed graph is well formed, holds the document's tasks in order, carries the document's metadata and has no task completed |
| TaskExecution.Process.constructor | atlasai/task/task_executor.py:136 | the process starts in an existing directory with an empty log |
| TaskExecution.Process.ChangeDir | atlasai/task/task_executor.py:137 | changing directory succeeds iff the directory exists, and only then moves the current directory |
| TaskExecution.Process.Record | atlasai/task/task_executor.py:88-89 | an event is appended to the log and nothing else changes |
| TaskExecution.ParseQueryOf | atlasai/task/task_executor.py:111-116 | `<word> --query <payload>` yields the payload with surrounding quotes stripped |
| TaskExecution.ParseQueryForm | atlasai/task/task_executor.py:111-116 | every accepted command has that form, so nothing else is accepted |
| TaskExecution.ParseQuery | atlasai/task/task_executor.py:111-116 | the query check and extraction; `ParseQueryOf` and `ParseQueryForm` state both directions |
| TaskExecution.Deliveries | atlasai/task/task_executor.py:121-124 | one callback delivery per streamed chunk, in order |
| TaskExecution.DeliveriesAppend | atlasai/task/task_executor.py:121-124 | one more chunk adds one more delivery at the end |
| TaskExecution.SequencedStep | atlasai/task/task_executor.py:69-89 | after steps that did not raise, one more step adds its events and decides whether the whole raises |
| TaskExecution.SequencedStops | atlasai/task/task_executor.py:69-89 | once a step raises, the later steps add nothing |
| TaskExecution.SequencedIncludes | atlasai/task/task_executor.py:69-89 | when nothing raises, every step ran and every event of every step is logged |
| TaskExecution.SequencedEvents | atlasai/task/task_executor.py:69-89 | every logged event comes from one of the steps |
| TaskExecution.StatusAfter | atlasai/task/task_executor.py:88 | completion flags with every logged completion applied; the flags keep their keys |
| TaskExecution.StatusAfterNothing | atlasai/task/task_executor.py:88 | no event changes no flag |
| TaskExecution.StatusAfterAppend | atlasai/task/task_executor.py:88 | applying two logs in turn is applying their concatenation |
| TaskExecution.StatusAfterGrows | atlasai/task/task_executor.py:88 | completion only grows |
| TaskExecution.StatusAfterTask | atlasai/task/task_executor.py:79-88 | a task's commands change no flag, and its completion sets exactly its own |
| TaskExecution.RoundSteps | atlasai/task/task_executor.py:69-70 | the effects of a round's tasks, one per task |
| TaskExecution.RoundStepsAt | atlasai/task/task_executor.py:69-70 | the i-th step is the i-th task's effect |
| TaskExecution.ScheduleExtend | atlasai/task/task_executor.py:62-89 | a non-empty ready round after rounds that did not raise extends the schedule, its log and its flags |
| TaskExecution.LastRoundOrdered | atlasai/task/task_executor.py:62-89 | a round of ready tasks, completing only its own tasks, keeps every completion after its dependencies' completions |
| TaskExecution.TaskExecutor.constructor | atlasai/task/task_executor.py:18-33 | the executor keeps the graph, working directory and confirmation setting |
| TaskExecution.TaskExecutor.Routing | atlasai/task/task_executor.py:79-85 | a command starting with `atlasai` never reaches the shell or the prompt, and a well-formed one issues its query first; any other command never queries the agent, and runs first in the working directory when that exists |
| TaskExecution.IsRestricted | atlasai/task/task_executor.py:143 | a shell result counts as restricted iff it contains both `Error` and `not allowed`; `ShellEffectSpec` states the prompt it leads to |
| TaskExecution.TaskExecutor.ShellEffectSpec | atlasai/task/task_executor.py:139-172 | a shell command runs once in the working directory and never raises; the override prompt appears iff the output contains both `Error` and `not allowed` and confirmation is on; the callback gets the output, or `Error: ` and the message, last, and nothing without a callback |
| TaskExecution.TaskExecutor.CommandsEffectStep | atlasai/task/task_executor.py:79-85 | after commands that did not raise, the next command's events follow |
| TaskExecution.TaskExecutor.CommandsEffectStops | atlasai/task/task_executor.py:79-85 | once a command raises, the later commands do nothing |
| TaskExecution.TaskExecutor.ShellEffect | atlasai/task/task_executor.py:139-172 | one shell command in the working directory; `ShellEffectSpec` states it |
| TaskExecution.TaskExecutor.SystemEffect | atlasai/task/task_executor.py:136-175 | the `chdir` raises when the working directory is missing, else the shell command runs; `ExecuteSystemCommand` is proved to do it |
| TaskExecution.TaskExecutor.AiEffect | atlasai/task/task_executor.py:105-128 | a malformed command does nothing, a query streams its chunks; `ExecuteAtlasaiCommand` is proved to do it |
| TaskExecution.TaskExecutor.CommandEffect | atlasai/task/task_executor.py:79-85 | routing on the `atlasai` prefix; `Routing` states it |
| TaskExecution.TaskExecutor.CommandsEffect | atlasai/task/task_executor.py:79-85 | the commands in order, stopping at the first that raises; `CommandsEffectStep` and `CommandsEffectStops` state it |
| TaskExecution.TaskExecutor.ReliableNeverRaises | atlasai/task/task_executor.py:79-85 | with an existing working directory and an agent that never fails, no command list raises: a shell command catches its own failures and only the `chdir` at line 137 or the agent can raise |
| TaskExecution.TaskExecutor.CommandNeverCompletes | atlasai/task/task_executor.py:79-85 | a command never logs a completion |
| TaskExecution.TaskExecutor.CommandsNeverComplete | atlasai/task/task_executor.py:79-85 | nor does a list of commands |
| TaskExecution.TaskExecutor.EffectTable | atlasai/task/task_executor.py:69-89 | every task map has a table of what running each task does |
| TaskExecution.TaskExecutor.LookupIsTaskEffect | atlasai/task/task_executor.py:69-89 | the table gives each id the effect of running that task |
| TaskExecution.TaskExecutor.TaskCompletions | atlasai/task/task_executor.py:79-88 | running a task logs no completion but its own |
| TaskExecution.TaskExecutor.RoundCompletesAll | atlasai/task/task_executor.py:69-89 | a round that does not raise logs every one of its tasks completed |
| TaskExecution.TaskExecutor.RoundCompletions | atlasai/task/task_executor.py:69-89 | a round logs completions only of its own tasks |
| TaskExecution.TaskExecutor.ScheduleRespectsDependencies | atlasai/task/task_executor.py:62-89 | along the loop's schedule no task is logged completed before each of its pending dependencies |
| TaskExecution.TaskExecutor.ExecuteSystemCommand | atlasai/task/task_executor.py:130-175 | logs the shell command's effects, raises only when the working directory is missing, and leaves the current directory as it found it |
| TaskExecution.TaskExecutor.CollectResponse | atlasai/task/task_executor.py:119-127 | gathers every chunk in order and hands each to the callback when there is one |
| TaskExecution.TaskExecutor.ExecuteAtlasaiCommand | atlasai/task/task_executor.py:105-128 | a malformed command does nothing; a query is issued and its chunks delivered; raises iff the agent does |
| TaskExecution.TaskExecutor.ExecuteCommand | atlasai/task/task_executor.py:79-85 | dispatches on the `atlasai` prefix and logs that command's effects |
| TaskExecution.TaskExecutor.ExecuteCommands | atlasai/task/task_executor.py:79-85 | runs the commands in order and stops at the first exception |
| TaskExecution.TaskExecutor.ExecuteTask | atlasai/task/task_executor.py:69-89 | runs the task's commands; when none raises, marks the task completed and logs it; otherwise completion is unchanged |
| TaskExecution.TaskExecutor.RunRound | atlasai/task/task_executor.py:69-89 | runs the round's tasks in list order: the log grows by exactly the round's events (each task's commands, then its completion) and stops at the first exception; the flags change exactly by the completions logged; without an exception every task of the round ends completed; in a reliable environment nothing raises |
| TaskExecution.TaskExecutor.RunTask | atlasai/task/task_executor.py:69-89 | one task of a round, after tasks that did not raise: the log, the flags and the outcome become those of the round up to that task |
| TaskExecution.TaskExecutor.NextRound | atlasai/task/task_executor.py:62-89 | the round run is exactly the ready tasks in the map's order; an empty one means a dependency cycle and nothing is run or changed; otherwise the log and flags are those of running that round; the pending set never grows and shrinks when the round does not raise |
| TaskExecution.TaskExecutor.AdvanceRound | atlasai/task/task_executor.py:69-89 | runs a round led by a pending task with the log and flags of that round; the pending set never grows, and shrinks when the round does not raise |
| TaskExecution.TaskExecutor.RunRounds | atlasai/task/task_executor.py:62-98 | the rounds run form the schedule the loop defines (each round is the ready tasks once the earlier rounds are applied); the log is those rounds' events in order and the flags are their completions applied; success means every task is completed; a failure is a raising last round or pending tasks with none ready; at most one round per task; with no cycle in a reliable environment the loop succeeds |
| TaskExecution.TaskExecutor.ScheduleRound | atlasai/task/task_executor.py:62-89 | one pass of the loop extends the schedule, its log and its flags; a pass that does not stop shrinks the pending set; a stop is a raising round or pending tasks with none ready, which needs a cycle or an unreliable environment |
| TaskExecution.TaskExecutor.ExecuteTasks | atlasai/task/task_executor.py:35-103 | an empty graph or a cyclic one fails before anything runs, with an empty schedule; the log and flags are those of the loop's schedule; any other failure is a raising last round or pending tasks with none ready; no task is logged completed before each of its pending dependencies; through the table, each task's command events precede its completion; success means every task is completed; a non-empty acyclic graph in a reliable environment succeeds |
| TaskTemplate.TaskIds | atlasai/task/task_executor.py:216 | the k-th id is `task<k+1>` |
| TaskTemplate.EntriesTextAppend | atlasai/task/task_executor.py:212 | rendering one more task appends its text |
| TaskTemplate.AppendTaskEntries | atlasai/task/task_executor.py:196-212 | the loop appends the texts of tasks 1..n in order |
| TaskTemplate.TemplateText | atlasai/task/task_executor.py:177-238 | the template text: header, tasks 1..n, the final task when n > 2, notes; `GenerateTaskTemplate` is proved to build it and `TemplateTasks` states what it parses into |
| TaskTemplate.GenerateTaskTemplate | atlasai/task/task_executor.py:177-238 | the template is the header, tasks 1..n, the final task when n > 2, then the notes |
| TaskTemplate.EntryBlocksAt | atlasai/task/task_parser.py:107-113 | the k-th block read from a run of entries has the k-th entry's id and `depends` |
| TaskTemplate.MarkerAhead | atlasai/task/task_parser.py:107 | a marker starts with the look-ahead that ends the previous body |
| TaskTemplate.ScanEntries | atlasai/task/task_parser.py:107-113 | scanning rendered entries yields one block per entry, with the entry's id and `depends` and a body running to the next marker |
| TaskTemplate.DigitsAvoid | atlasai/task/task_executor.py:198 | a printed number has no `[`, quote, comma or whitespace |
| TaskTemplate.TaskIdShape | atlasai/task/task_executor.py:198 | a task id is non-empty, quote-free, comma-free and already stripped |
| TaskTemplate.TaskEntryReadable | atlasai/task/task_executor.py:201-211 | an example task's text has no `[` outside its marker, and valid marker attributes |
| TaskTemplate.FinalEntryReadable | atlasai/task/task_executor.py:215-226 | so does the final task's |
| TaskTemplate.HeaderAvoids | atlasai/task/task_executor.py:179-194 | the header has no `[` for a date written with digits and dashes |
| TaskTemplate.TaskEntriesAt | atlasai/task/task_executor.py:197-211 | the k-th example task is task k+1 |
| TaskTemplate.EntriesReadable | atlasai/task/task_executor.py:196-226 | every task of the template is readable |
| TaskTemplate.TemplateSpecs | atlasai/task/task_executor.py:177-238 | parsing the template gives one task per written entry, with its id and dependencies |
| TaskTemplate.NoDependencies | atlasai/task/task_executor.py:199 | an empty `depends` gives no dependency |
| TaskTemplate.SingleDependency | atlasai/task/task_executor.py:199 | `depends="task<i>"` gives exactly `task<i>` |
| TaskTemplate.PreviousDependencies | atlasai/task/task_executor.py:216 | the final task's `depends` reads back as `task1`..`task<n-1>` |
| TaskTemplate.ExampleEntryFields | atlasai/task/task_executor.py:197-199 | example task k+1 has id `task<k+1>` and depends on `task<k>` from the second on |
| TaskTemplate.FinalEntryFields | atlasai/task/task_executor.py:215-218 | the entry after the examples is `final`, depending on `task1`..`task<n-1>` |
| TaskTemplate.TemplateTasks | atlasai/task/task_executor.py:196-226 | the template for n parses into n tasks, or n+1 when n > 2: `task1` with no dependency, each `task<k+1>` depending on `task<k>`, then `final` depending on `task1`..`task<n-1>` |
| TaskTemplate.TaskIdInjective | atlasai/task/task_executor.py:198 | different task numbers give different ids |
| TaskTemplate.TaskIdNotFinal | atlasai/task/task_executor.py:218 | no example id is `final` |
| TaskTemplate.TemplateOrder | atlasai/task/task_executor.py:196-218 | the template's ids in document order, one per parsed task |
| TaskTemplate.TemplateOrderDistinct | atlasai/task/task_executor.py:196-218 | the template's ids are pairwise different |
| TaskTemplate.ChainEdgeForward | atlasai/task/task_parser.py:33-35 | every dependency edge of the template's graph goes from an earlier task to a later one |
| TaskTemplate.ChainAcyclic | atlasai/task/task_parser.py:66-77 | a task list shaped like the template's has no dependency cycle |
| TaskTemplate.TemplateAcyclic | atlasai/task/task_executor.py:177-238 | the generated workflow has no dependency cycle, so its execution order exists |

## Left out

- Reading the task file from disk, and the `FileNotFoundError` for a missing file, are left out. `ParseTaskFile` takes the document text.
- YAML parsing is an oracle `loadYaml` that returns a string map or a YAML error. A document whose YAML yields something other than a mapping is not modelled.
- TaskParser.ParseMetadata: a metadata value is a string, so the typed values (numbers, booleans, lists) a YAML loader produces are not modelled.
- Console output (`rich` panels, prints, logging) is left out. It does not change any state the engine reads.
- The agent's construction and its model, provider, API key and language settings are left out. The agent is the `ask` function of `Services`.
- `os.path.abspath` of the working directory is left out. The working directory is taken as already absolute.
- Asynchronous execution is left out. The source awaits each command in turn, and the model runs them in the same order, one after another.
- `\w` and `\s` in the regular expressions cover the ASCII word characters and Python's whitespace set. Non-ASCII letters and digits in a language tag are not treated as word characters.
- The regular expressions' `$` look-ahead at the end of a task body is taken as the end of the document. `$` also matching just before a final newline is not modelled. Since bodies are stripped, the task read is the same.
- The graph library's particular topological order and its list of cycles are left out. `GetExecutionOrder` returns some topological order, or a cycle error.
- The override prompt's answer comes from the `confirm` function of `Services`, keyed by the command. The source does nothing with a positive answer, and the model only logs the prompt.
- A callback that itself raises is not modelled. The callback only receives deliveries.
- A failure to change back to the previous directory after a shell command is not modelled.
- TaskExecution.TaskExecutor.ExecuteTasks: the set of existing directories, `Process.dirs`, is fixed. Shell commands are taken not to create or remove directories, so a command that deletes the working directory, after which the next `chdir` (`atlasai/task/task_executor.py:137`) would raise and the run would return False (`atlasai/task/task_executor.py:99-103`), is not modelled.
- TaskExecution.TaskExecutor.ReliableNeverRaises: "reliable" rests on the same fixed set of directories. A shell command that removes the working directory is not modelled, so the lemma does not cover a later command failing at its `chdir`.
- `datetime.now` is a parameter `today` of `GenerateTaskTemplate`.
- TaskTemplate.TemplateTasks, TemplateSpecs and TemplateAcyclic assume a date made of digits and dashes, as `%Y-%m-%d` prints it.
