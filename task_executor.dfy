/**
 * Running a task graph: the scheduling loop, the routing of each command to
 * the AI agent or to the shell, the `--query` command syntax and the
 * directory scoping of shell commands.
 *
 * The outside world is explicit. `Process` is the operating-system state the
 * executor touches (current directory, existing directories) together with a
 * log of the observable effects (commands run, queries issued, callback
 * deliveries, override prompts, completion notices). `Services` stands for the
 * shell-command runner, the AI agent and the confirmation prompt, each a
 * function of its input.
 */
module TaskExecution {
  import opened Text
  import opened Digraph
  import opened TaskDocument
  import opened TaskParser

  /** What the command runner gives back: its output text, or an exception message. */
  datatype RunOutcome = Output(text: string) | Raised(message: string)

  /** What the agent does with a query: the chunks it streams, then whether it raises. */
  datatype QueryOutcome = QueryOutcome(chunks: seq<string>, raises: bool)

  datatype Services = Services(
    run: (string, string) -> RunOutcome,  // command, directory it runs in
    ask: string -> QueryOutcome,
    confirm: string -> bool)              // the answer to the override prompt for a command

  datatype Event =
    | Run(command: string, dir: string)
    | Prompt(command: string, accepted: bool)
    | Query(text: string)
    | Delivered(text: string)
    | Completed(id: string)

  /** The events a step produces, and whether it ends by raising an exception. */
  datatype Effect = Effect(events: seq<Event>, raises: bool)

  /** The operating-system state the executor uses, and the log of what it did. */
  class Process {
    var cwd: string
    const dirs: set<string>
    var log: seq<Event>

    ghost predicate Valid()
      reads this
    {
      cwd in dirs
    }

    constructor (cwd: string, dirs: set<string>)
      requires cwd in dirs
      ensures Valid() && this.cwd == cwd && this.dirs == dirs && log == []
    {
      this.cwd := cwd;
      this.dirs := dirs;
      log := [];
    }

    /** Enters an existing directory; fails, changing nothing, on a missing one. */
    method ChangeDir(path: string) returns (ok: bool)
      requires Valid()
      modifies this
      ensures Valid()
      ensures ok <==> path in dirs
      ensures cwd == (if ok then path else old(cwd)) && log == old(log)
    {
      ok := path in dirs;
      if ok {
        cwd := path;
      }
    }

    method Record(e: Event)
      modifies this
      ensures log == old(log) + [e] && cwd == old(cwd)
    {
      log := log + [e];
    }
  }

  // ---------------------------------------------------------------------------
  // The `atlasai --query` syntax

  const QueryFlag: string := "--query"
  const Quotes: set<char> := {'"', '\''}

  /**
   * `command.split(' ', 2)`: the query is the third piece with quotes stripped
   * from both ends, provided there are three pieces and the second is `--query`.
   */
  function ParseQuery(command: string): Option<string> {
    var parts := SplitN(command, ' ', 2);
    if |parts| < 3 || parts[1] != QueryFlag then None
    else Some(Strip(parts[2], Quotes))
  }

  /** A first word, ` --query `, then a payload: the query is the payload unquoted. */
  lemma ParseQueryOf(head: string, payload: string)
    requires ' ' !in head
    ensures ParseQuery(head + " --query " + payload) == Some(Strip(payload, Quotes))
  {
    assert head + " --query " + payload == head + [' '] + QueryFlag + [' '] + payload;
    SplitThreeOf(head, QueryFlag, payload, ' ');
  }

  /** Every command accepted as a query has that form. */
  lemma ParseQueryForm(command: string)
    requires ParseQuery(command).Some?
    ensures exists head, payload :: ' ' !in head && command == head + " --query " + payload
              && ParseQuery(command) == Some(Strip(payload, Quotes))
  {
    SplitThree(command, ' ');
    var parts := SplitN(command, ' ', 2);
    QueryGlue(command, parts[0], parts[2]);
  }

  lemma QueryGlue(command: string, head: string, payload: string)
    requires command == head + [' '] + (QueryFlag + [' '] + payload)
    ensures command == head + " --query " + payload
  {
    assert " --query " == [' '] + QueryFlag + [' '];
  }

  /** A runner result reports a refused command: it mentions both markers. */
  predicate IsRestricted(result: string) {
    Contains(result, "Error") && Contains(result, "not allowed")
  }

  /** One delivery to the callback per streamed chunk, in order. */
  function Deliveries(chunks: seq<string>): (r: seq<Event>)
    ensures |r| == |chunks| && forall i :: 0 <= i < |r| ==> r[i] == Delivered(chunks[i])
  {
    if chunks == [] then [] else [Delivered(chunks[0])] + Deliveries(chunks[1..])
  }

  // ---------------------------------------------------------------------------
  // Steps in sequence

  /** The effects of steps run one after the other, stopping at the first that raises. */
  function Sequenced(steps: seq<Effect>): Effect {
    if steps == [] then Effect([], false)
    else
      var before := Sequenced(steps[..|steps| - 1]);
      if before.raises then before
      else Effect(before.events + steps[|steps| - 1].events, steps[|steps| - 1].raises)
  }

  /** One more step, after steps that did not raise. */
  lemma SequencedStep(steps: seq<Effect>, j: nat)
    requires j < |steps| && !Sequenced(steps[..j]).raises
    ensures Sequenced(steps[..j + 1]) == Effect(Sequenced(steps[..j]).events + steps[j].events, steps[j].raises)
  {
    assert steps[..j + 1][..j] == steps[..j];
  }

  /** Steps that stopped by raising are the run of all of them. */
  lemma {:induction false} SequencedStops(steps: seq<Effect>, j: nat)
    requires j <= |steps| && Sequenced(steps[..j]).raises
    ensures Sequenced(steps) == Sequenced(steps[..j])
    decreases |steps| - j
  {
    if j < |steps| {
      assert steps[..j + 1][..j] == steps[..j];
      SequencedStops(steps, j + 1);
    } else {
      assert steps[..j] == steps;
    }
  }

  /** Steps in sequence that do not raise are steps none of which raised, and keep all their events. */
  lemma {:induction false} SequencedIncludes(steps: seq<Effect>)
    requires !Sequenced(steps).raises
    ensures forall i :: 0 <= i < |steps| ==> !steps[i].raises
    ensures forall i, e :: 0 <= i < |steps| && e in steps[i].events ==> e in Sequenced(steps).events
  {
    if steps != [] {
      var init := steps[..|steps| - 1];
      SequencedIncludes(init);
      forall i, e | 0 <= i < |steps| && e in steps[i].events
        ensures e in Sequenced(steps).events
      {
        if i < |init| {
          assert steps[i] == init[i];
        }
      }
      forall i | 0 <= i < |steps|
        ensures !steps[i].raises
      {
        if i < |init| {
          assert steps[i] == init[i];
        }
      }
    }
  }

  /** Every event of steps in sequence is an event of one of the steps. */
  lemma {:induction false} SequencedEvents(steps: seq<Effect>)
    ensures forall e :: e in Sequenced(steps).events ==> exists i :: 0 <= i < |steps| && e in steps[i].events
  {
    if steps != [] {
      var init := steps[..|steps| - 1];
      SequencedEvents(init);
      forall e | e in Sequenced(steps).events
        ensures exists i :: 0 <= i < |steps| && e in steps[i].events
      {
        if e in Sequenced(init).events {
          var i :| 0 <= i < |init| && e in init[i].events;
          assert steps[i] == init[i];
        } else {
          assert e in steps[|steps| - 1].events;
        }
      }
    }
  }

  // ---------------------------------------------------------------------------
  // Completion as the log records it

  /** No event of `events` is a completion notice. */
  predicate NoCompletion(events: seq<Event>) {
    forall i :: 0 <= i < |events| ==> !events[i].Completed?
  }

  /** The completion flags `status` once every completion logged in `events` is applied. */
  ghost function StatusAfter(status: map<string, bool>, events: seq<Event>): (r: map<string, bool>)
    ensures r.Keys == status.Keys
  {
    map k | k in status :: status[k] || Completed(k) in events
  }

  lemma StatusAfterNothing(status: map<string, bool>)
    ensures StatusAfter(status, []) == status
  {
  }

  /** Applying two stretches of log one after the other is applying them together. */
  lemma StatusAfterAppend(status: map<string, bool>, a: seq<Event>, b: seq<Event>)
    ensures StatusAfter(StatusAfter(status, a), b) == StatusAfter(status, a + b)
  {
    forall k | k in status
      ensures (status[k] || Completed(k) in a || Completed(k) in b) == (status[k] || Completed(k) in a + b)
    {
      assert Completed(k) in a + b <==> Completed(k) in a || Completed(k) in b;
    }
  }

  /** Logged completions only ever set flags. */
  lemma StatusAfterGrows(status: map<string, bool>, events: seq<Event>)
    ensures Grows(status, StatusAfter(status, events))
  {
  }

  /**
   * A task's commands, followed by its completion notice when it completes,
   * set exactly that task's flag.
   */
  lemma StatusAfterTask(status: map<string, bool>, commands: seq<Event>, id: string, completes: bool)
    requires id in status && NoCompletion(commands)
    ensures StatusAfter(status, commands + (if completes then [Completed(id)] else []))
         == if completes then status[id := true] else status
  {
    var tail: seq<Event> := if completes then [Completed(id)] else [];
    forall k | k in status
      ensures Completed(k) in commands + tail <==> completes && k == id
    {
      assert forall i :: 0 <= i < |commands| ==> commands[i] != Completed(k);
    }
  }

  // ---------------------------------------------------------------------------
  // Rounds and schedules
  //
  // A table maps each task to the effect of running it (its commands, then its
  // completion notice unless one of them raised); the executor below proves
  // which table describes its tasks. Rounds and schedules are stated over the
  // table.

  /** The effect `table` records for task `id`; looking up an id it does not hold raises. */
  function Lookup(table: map<string, Effect>, id: string): Effect {
    if id in table then table[id] else Effect([], true)
  }

  /** The effect of each task of a round, in order. */
  function RoundSteps(table: map<string, Effect>, ids: seq<string>): (r: seq<Effect>)
    ensures |r| == |ids|
  {
    if ids == [] then []
    else RoundSteps(table, ids[..|ids| - 1]) + [Lookup(table, ids[|ids| - 1])]
  }

  /** Entry `i` of a round's steps is the effect of its `i`-th task. */
  lemma {:induction false} RoundStepsAt(table: map<string, Effect>, ids: seq<string>)
    ensures forall i :: 0 <= i < |ids| ==> RoundSteps(table, ids)[i] == Lookup(table, ids[i])
  {
    if ids != [] {
      RoundStepsAt(table, ids[..|ids| - 1]);
    }
  }

  /** The tasks of a round in order, stopping at the first one that raises. */
  function RoundEffect(table: map<string, Effect>, ids: seq<string>): Effect {
    Sequenced(RoundSteps(table, ids))
  }

  /** All rounds of a schedule, one after the other. */
  function RoundsEvents(table: map<string, Effect>, schedule: seq<seq<string>>): seq<Event> {
    if schedule == [] then []
    else RoundsEvents(table, schedule[..|schedule| - 1]) + RoundEffect(table, schedule[|schedule| - 1]).events
  }

  /**
   * `schedule` is the rounds the scheduling loop runs over `tasks`, listed
   * in `order`, from completion flags `status`: each round is non-empty and
   * is exactly the tasks ready, in that order, once the rounds before it are
   * applied; only the last round may raise.
   */
  ghost predicate IsSchedule(tasks: map<string, TaskDefinition>, table: map<string, Effect>, order: seq<string>,
                             status: map<string, bool>, schedule: seq<seq<string>>)
  {
    schedule != [] ==>
      var n := |schedule| - 1;
      && IsSchedule(tasks, table, order, status, schedule[..n])
      && (n > 0 ==> !RoundEffect(table, schedule[n - 1]).raises)
      && schedule[n] != []
      && schedule[n] == ReadyAmong(tasks, StatusAfter(status, RoundsEvents(table, schedule[..n])), order)
  }

  /**
   * Every completion in `log` comes after the completion of each dependency
   * of that task that names a task of `tasks`, unless the dependency was
   * already complete in `status`.
   */
  ghost predicate DependencyOrdered(tasks: map<string, TaskDefinition>, status: map<string, bool>, log: seq<Event>) {
    forall i, b, a :: 0 <= i < |log| && log[i] == Completed(b) && b in tasks
      && a in tasks[b].dependsOn && a != "" && a in tasks && a in status
      ==> status[a] || Completed(a) in log[..i]
  }

  /** One more round of the loop, after rounds that did not raise: the schedule, its log and its flags grow by it. */
  lemma ScheduleExtend(tasks: map<string, TaskDefinition>, table: map<string, Effect>, order: seq<string>,
                       status: map<string, bool>, log0: seq<Event>, schedule: seq<seq<string>>, next: seq<string>)
    requires IsSchedule(tasks, table, order, status, schedule)
    requires schedule != [] ==> !RoundEffect(table, schedule[|schedule| - 1]).raises
    requires next != []
    requires next == ReadyAmong(tasks, StatusAfter(status, RoundsEvents(table, schedule)), order)
    ensures IsSchedule(tasks, table, order, status, schedule + [next])
    ensures RoundsEvents(table, schedule + [next]) == RoundsEvents(table, schedule) + RoundEffect(table, next).events
    ensures log0 + RoundsEvents(table, schedule + [next]) == log0 + RoundsEvents(table, schedule) + RoundEffect(table, next).events
    ensures StatusAfter(StatusAfter(status, RoundsEvents(table, schedule)), RoundEffect(table, next).events)
         == StatusAfter(status, RoundsEvents(table, schedule + [next]))
  {
    assert (schedule + [next])[..|schedule|] == schedule;
    StatusAfterAppend(status, RoundsEvents(table, schedule), RoundEffect(table, next).events);
  }

  /** A round of ready tasks, completing only tasks of its own, keeps a dependency-ordered log ordered. */
  lemma LastRoundOrdered(tasks: map<string, TaskDefinition>, table: map<string, Effect>, status: map<string, bool>,
                         prior: seq<Event>, next: seq<string>)
    requires DependencyOrdered(tasks, status, prior)
    requires forall b :: b in next ==> ReadyUnder(tasks, StatusAfter(status, prior), b)
    requires forall b :: Completed(b) in RoundEffect(table, next).events ==> b in next
    ensures DependencyOrdered(tasks, status, prior + RoundEffect(table, next).events)
  {
    var round := RoundEffect(table, next).events;
    var log := prior + round;
    forall i, b, a | 0 <= i < |log| && log[i] == Completed(b) && b in tasks
      && a in tasks[b].dependsOn && a != "" && a in tasks && a in status
      ensures status[a] || Completed(a) in log[..i]
    {
      if i < |prior| {
        assert log[..i] == prior[..i] && log[i] == prior[i];
      } else {
        assert round[i - |prior|] == Completed(b);
        assert ReadyUnder(tasks, StatusAfter(status, prior), b);
        if !status[a] {
          var j :| 0 <= j < |prior| && prior[j] == Completed(a);
          assert log[..i][j] == Completed(a);
        }
      }
    }
  }

  // ---------------------------------------------------------------------------
  // The executor

  class TaskExecutor {
    const graph: TaskGraph
    const workingDir: string
    const verifyCommands: bool
    const process: Process
    const services: Services

    constructor (graph: TaskGraph, workingDir: string, verifyCommands: bool, process: Process, services: Services)
      ensures this.graph == graph && this.workingDir == workingDir && this.verifyCommands == verifyCommands
      ensures this.process == process && this.services == services
    {
      this.graph := graph;
      this.workingDir := workingDir;
      this.verifyCommands := verifyCommands;
      this.process := process;
      this.services := services;
    }

    /**
     * A shell command, once the working directory is entered: it runs there
     * once; a restricted result offers the override prompt when commands are
     * verified; the callback gets the output or `Error: ` and the message.
     * Nothing escapes.
     */
    function ShellEffect(command: string, hasCallback: bool): Effect {
      match services.run(command, workingDir)
      case Output(result) =>
        Effect([Run(command, workingDir)]
               + (if IsRestricted(result) && verifyCommands then [Prompt(command, services.confirm(command))] else [])
               + (if hasCallback then [Delivered(result)] else []), false)
      case Raised(message) =>
        Effect([Run(command, workingDir)] + (if hasCallback then [Delivered("Error: " + message)] else []), false)
    }

    /** A shell command; entering a missing working directory raises before anything runs. */
    function SystemEffect(command: string, hasCallback: bool): Effect {
      if workingDir in process.dirs then ShellEffect(command, hasCallback) else Effect([], true)
    }

    /** An AI command: a malformed one is dropped; a query streams its chunks to the callback. */
    function AiEffect(command: string, hasCallback: bool): Effect {
      match ParseQuery(command)
      case None => Effect([], false)
      case Some(query) =>
        var answer := services.ask(query);
        Effect([Query(query)] + (if hasCallback then Deliveries(answer.chunks) else []), answer.raises)
    }

    function CommandEffect(command: string, hasCallback: bool): Effect {
      if StartsWith(command, "atlasai") then AiEffect(command, hasCallback) else SystemEffect(command, hasCallback)
    }

    /** Commands in order, stopping at the first one that raises. */
    function CommandsEffect(commands: seq<string>, hasCallback: bool): Effect {
      if commands == [] then Effect([], false)
      else
        var before := CommandsEffect(commands[..|commands| - 1], hasCallback);
        if before.raises then before
        else
          var last := CommandEffect(commands[|commands| - 1], hasCallback);
          Effect(before.events + last.events, last.raises)
    }

    /**
     * A command goes to the agent exactly when it starts with `atlasai`: only
     * then can a query be issued, and only otherwise can a shell command run.
     */
    lemma Routing(command: string, hasCallback: bool)
      ensures var e := CommandEffect(command, hasCallback).events;
        && (StartsWith(command, "atlasai") ==> forall i :: 0 <= i < |e| ==> !e[i].Run? && !e[i].Prompt?)
        && (!StartsWith(command, "atlasai") ==> forall i :: 0 <= i < |e| ==> !e[i].Query?)
        && (StartsWith(command, "atlasai") && ParseQuery(command).Some? ==> e[0] == Query(ParseQuery(command).value))
        && (!StartsWith(command, "atlasai") && workingDir in process.dirs ==> e[0] == Run(command, workingDir))
    {
      if StartsWith(command, "atlasai") {
        match ParseQuery(command)
        case None =>
        case Some(query) =>
          var answer := services.ask(query);
          var e := [Query(query)] + (if hasCallback then Deliveries(answer.chunks) else []);
          assert forall i :: 1 <= i < |e| ==> e[i].Delivered?;
      }
    }

    /**
     * A shell command runs exactly once, in the working directory, whatever the
     * override prompt is answered; the prompt appears exactly when the output
     * is restricted and commands are verified; the callback, when present, last
     * receives the output or the error text.
     */
    lemma ShellEffectSpec(command: string, hasCallback: bool)
      ensures var e := ShellEffect(command, hasCallback);
        && !e.raises
        && e.events[0] == Run(command, workingDir)
        && (forall i :: 0 < i < |e.events| ==> !e.events[i].Run?)
        && ((exists i :: 0 <= i < |e.events| && e.events[i].Prompt?)
            <==> services.run(command, workingDir).Output?
                 && IsRestricted(services.run(command, workingDir).text) && verifyCommands)
        && (hasCallback ==> e.events[|e.events| - 1] == Delivered(
              match services.run(command, workingDir)
              case Output(result) => result
              case Raised(message) => "Error: " + message))
        && (!hasCallback ==> forall i :: 0 <= i < |e.events| ==> !e.events[i].Delivered?)
    {
      var e := ShellEffect(command, hasCallback);
      match services.run(command, workingDir)
      case Output(result) =>
        if IsRestricted(result) && verifyCommands {
          assert e.events[1].Prompt?;
        }
      case Raised(message) =>
    }

    /** One more command, after a prefix that did not raise. */
    lemma CommandsEffectStep(commands: seq<string>, i: nat, hasCallback: bool)
      requires i < |commands| && !CommandsEffect(commands[..i], hasCallback).raises
      ensures var before := CommandsEffect(commands[..i], hasCallback);
        var step := CommandEffect(commands[i], hasCallback);
        CommandsEffect(commands[..i + 1], hasCallback) == Effect(before.events + step.events, step.raises)
    {
      assert commands[..i + 1][..i] == commands[..i];
    }

    /** A run that stopped by raising after some commands is the run of all of them. */
    lemma {:induction false} CommandsEffectStops(commands: seq<string>, i: nat, hasCallback: bool)
      requires i <= |commands| && CommandsEffect(commands[..i], hasCallback).raises
      ensures CommandsEffect(commands, hasCallback) == CommandsEffect(commands[..i], hasCallback)
      decreases |commands| - i
    {
      if i < |commands| {
        var next := commands[..i + 1];
        assert next[..i] == commands[..i];
        CommandsEffectStops(commands, i + 1, hasCallback);
      } else {
        assert commands[..i] == commands;
      }
    }

    /** The working directory exists and the agent never raises. */
    ghost predicate Reliable() {
      workingDir in process.dirs && forall q :: !services.ask(q).raises
    }

    /** With a reliable environment no command list raises. */
    lemma {:induction false} ReliableNeverRaises(commands: seq<string>, hasCallback: bool)
      requires Reliable()
      ensures !CommandsEffect(commands, hasCallback).raises
    {
      if commands != [] {
        ReliableNeverRaises(commands[..|commands| - 1], hasCallback);
      }
    }

    /** No command logs a completion notice: only the scheduler does. */
    lemma CommandNeverCompletes(command: string, hasCallback: bool)
      ensures NoCompletion(CommandEffect(command, hasCallback).events)
    {
      if StartsWith(command, "atlasai") {
        match ParseQuery(command)
        case None =>
        case Some(query) =>
          var e := [Query(query)] + (if hasCallback then Deliveries(services.ask(query).chunks) else []);
          assert forall i :: 1 <= i < |e| ==> e[i].Delivered?;
      }
    }

    lemma {:induction false} CommandsNeverComplete(commands: seq<string>, hasCallback: bool)
      ensures NoCompletion(CommandsEffect(commands, hasCallback).events)
    {
      if commands != [] {
        CommandsNeverComplete(commands[..|commands| - 1], hasCallback);
        CommandNeverCompletes(commands[|commands| - 1], hasCallback);
      }
    }

    /**
     * Task `id` of `tasks`: its commands in order, then its completion notice
     * unless one of them raised. Looking up an id the map does not hold raises.
     */
    function TaskEffect(tasks: map<string, TaskDefinition>, id: string, hasCallback: bool): Effect {
      if id !in tasks then Effect([], true)
      else
        var run := CommandsEffect(tasks[id].commands, hasCallback);
        Effect(run.events + (if run.raises then [] else [Completed(id)]), run.raises)
    }

    /**
     * `table` records the effect of running each task of `tasks`. The
     * quantifier is only instantiated where a task's effect is named, so the
     * scheduling proofs reason about the table without unfolding the commands.
     */
    ghost predicate Tabulates(tasks: map<string, TaskDefinition>, table: map<string, Effect>, hasCallback: bool) {
      && table.Keys == tasks.Keys
      && forall id {:trigger TaskEffect(tasks, id, hasCallback)} :: id in tasks ==> table[id] == TaskEffect(tasks, id, hasCallback)
    }

    /** The table of `tasks`: each task with the effect of running it. */
    lemma EffectTable(tasks: map<string, TaskDefinition>, hasCallback: bool) returns (table: map<string, Effect>)
      ensures Tabulates(tasks, table, hasCallback)
    {
      table := map id | id in tasks :: TaskEffect(tasks, id, hasCallback);
    }

    /** Every lookup in a table of `tasks` is that task's effect, a missing id included. */
    lemma LookupIsTaskEffect(tasks: map<string, TaskDefinition>, table: map<string, Effect>, id: string, hasCallback: bool)
      requires Tabulates(tasks, table, hasCallback)
      ensures Lookup(table, id) == TaskEffect(tasks, id, hasCallback)
    {
    }

    /** A task's run logs no completion but its own. */
    lemma TaskCompletions(tasks: map<string, TaskDefinition>, id: string, hasCallback: bool)
      ensures forall b :: Completed(b) in TaskEffect(tasks, id, hasCallback).events ==> b == id
    {
      if id in tasks {
        CommandsNeverComplete(tasks[id].commands, hasCallback);
        var commands := CommandsEffect(tasks[id].commands, hasCallback).events;
        forall b | Completed(b) in TaskEffect(tasks, id, hasCallback).events
          ensures b == id
        {
          assert forall i :: 0 <= i < |commands| ==> commands[i] != Completed(b);
        }
      }
    }

    /** A round that does not raise logs the completion of each of its tasks. */
    lemma RoundCompletesAll(tasks: map<string, TaskDefinition>, table: map<string, Effect>, ids: seq<string>, hasCallback: bool)
      requires Tabulates(tasks, table, hasCallback)
      requires !RoundEffect(table, ids).raises
      ensures forall k :: k in ids ==> Completed(k) in RoundEffect(table, ids).events
    {
      var steps := RoundSteps(table, ids);
      RoundStepsAt(table, ids);
      SequencedIncludes(steps);
      forall k | k in ids
        ensures Completed(k) in RoundEffect(table, ids).events
      {
        var i :| 0 <= i < |ids| && ids[i] == k;
        LookupIsTaskEffect(tasks, table, k, hasCallback);
        assert Completed(k) in steps[i].events;
      }
    }

    /** A round only ever completes tasks of that round. */
    lemma RoundCompletions(tasks: map<string, TaskDefinition>, table: map<string, Effect>, ids: seq<string>, hasCallback: bool)
      requires Tabulates(tasks, table, hasCallback)
      ensures forall b :: Completed(b) in RoundEffect(table, ids).events ==> b in ids
    {
      var steps := RoundSteps(table, ids);
      RoundStepsAt(table, ids);
      SequencedEvents(steps);
      forall b | Completed(b) in RoundEffect(table, ids).events
        ensures b in ids
      {
        var i :| 0 <= i < |steps| && Completed(b) in steps[i].events;
        LookupIsTaskEffect(tasks, table, ids[i], hasCallback);
        TaskCompletions(tasks, ids[i], hasCallback);
      }
    }

    /**
     * The loop never completes a task before the dependencies it waits for:
     * a task runs only in a round where all its dependencies were completed
     * by earlier rounds or from the start.
     */
    lemma {:induction false} ScheduleRespectsDependencies(tasks: map<string, TaskDefinition>, table: map<string, Effect>,
                                                          order: seq<string>, status: map<string, bool>,
                                                          schedule: seq<seq<string>>, hasCallback: bool)
      requires Tabulates(tasks, table, hasCallback)
      requires IsSchedule(tasks, table, order, status, schedule)
      ensures DependencyOrdered(tasks, status, RoundsEvents(table, schedule))
    {
      if schedule != [] {
        var n := |schedule| - 1;
        var init := schedule[..n];
        ScheduleRespectsDependencies(tasks, table, order, status, init, hasCallback);
        var prior := RoundsEvents(table, init);
        ReadyAmongMembers(tasks, StatusAfter(status, prior), order);
        RoundCompletions(tasks, table, schedule[n], hasCallback);
        LastRoundOrdered(tasks, table, status, prior, schedule[n]);
      }
    }
    /**
     * Runs a shell command in the working directory and goes back to the
     * previous directory afterwards, whatever the runner did. When the working
     * directory is missing, the error escapes before anything runs.
     */
    method ExecuteSystemCommand(command: string, hasCallback: bool) returns (raises: bool)
      requires process.Valid()
      modifies process
      ensures process.Valid() && process.cwd == old(process.cwd)
      ensures process.log == old(process.log) + SystemEffect(command, hasCallback).events
      ensures raises == SystemEffect(command, hasCallback).raises
    {
      var previous := process.cwd;
      var entered := process.ChangeDir(workingDir);
      if !entered {
        return true;
      }
      var outcome := services.run(command, process.cwd);
      process.Record(Run(command, process.cwd));
      match outcome {
        case Output(result) =>
          if IsRestricted(result) && verifyCommands {
            var accepted := services.confirm(command);
            process.Record(Prompt(command, accepted));
          }
          if hasCallback {
            process.Record(Delivered(result));
          }
        case Raised(message) =>
          if hasCallback {
            process.Record(Delivered("Error: " + message));
          }
      }
      var restored := process.ChangeDir(previous);
      raises := false;
    }

    /**
     * The streaming callback: each chunk of the answer is kept, and handed to
     * the task callback when there is one.
     */
    method CollectResponse(chunks: seq<string>, hasCallback: bool) returns (fullResponse: seq<string>)
      modifies process
      ensures fullResponse == chunks
      ensures process.cwd == old(process.cwd)
      ensures process.log == old(process.log) + (if hasCallback then Deliveries(chunks) else [])
    {
      fullResponse := [];
      for i := 0 to |chunks|
        invariant fullResponse == chunks[..i]
        invariant process.cwd == old(process.cwd)
        invariant process.log == old(process.log) + (if hasCallback then Deliveries(chunks[..i]) else [])
      {
        if hasCallback {
          DeliveriesAppend(chunks[..i], chunks[i]);
          process.Record(Delivered(chunks[i]));
        }
        assert chunks[..i + 1] == chunks[..i] + [chunks[i]];
        fullResponse := fullResponse + [chunks[i]];
      }
      assert chunks[..|chunks|] == chunks;
    }

    /**
     * Sends the query of a well-formed `atlasai --query` command to the agent
     * and passes each streamed chunk to the callback while collecting it.
     */
    method ExecuteAtlasaiCommand(command: string, hasCallback: bool) returns (raises: bool)
      modifies process
      ensures process.cwd == old(process.cwd)
      ensures process.log == old(process.log) + AiEffect(command, hasCallback).events
      ensures raises == AiEffect(command, hasCallback).raises
    {
      match ParseQuery(command) {
        case None =>
          return false;
        case Some(query) =>
          process.Record(Query(query));
          var answer := services.ask(query);
          var fullResponse := CollectResponse(answer.chunks, hasCallback);
          raises := answer.raises;
      }
    }

    method ExecuteCommand(command: string, hasCallback: bool) returns (raises: bool)
      requires process.Valid()
      modifies process
      ensures process.Valid() && process.cwd == old(process.cwd)
      ensures process.log == old(process.log) + CommandEffect(command, hasCallback).events
      ensures raises == CommandEffect(command, hasCallback).raises
    {
      if StartsWith(command, "atlasai") {
        raises := ExecuteAtlasaiCommand(command, hasCallback);
      } else {
        raises := ExecuteSystemCommand(command, hasCallback);
      }
    }

    /** Runs commands in order until one raises. */
    method ExecuteCommands(commands: seq<string>, hasCallback: bool) returns (raises: bool)
      requires process.Valid()
      modifies process
      ensures process.Valid() && process.cwd == old(process.cwd)
      ensures process.log == old(process.log) + CommandsEffect(commands, hasCallback).events
      ensures raises == CommandsEffect(commands, hasCallback).raises
    {
      for i := 0 to |commands|
        invariant process.Valid() && process.cwd == old(process.cwd)
        invariant process.log == old(process.log) + CommandsEffect(commands[..i], hasCallback).events
        invariant !CommandsEffect(commands[..i], hasCallback).raises
      {
        CommandsEffectStep(commands, i, hasCallback);
        ghost var done := CommandsEffect(commands[..i], hasCallback).events;
        ghost var logBefore := process.log;
        raises := ExecuteCommand(commands[i], hasCallback);
        ghost var step := CommandEffect(commands[i], hasCallback).events;
        assert process.log == logBefore + step;
        assert process.log == old(process.log) + (done + step);
        if raises {
          CommandsEffectStops(commands, i + 1, hasCallback);
          return;
        }
      }
      assert commands[..|commands|] == commands;
      raises := false;
    }

    /**
     * Runs every command of a task in order and only then marks the task
     * completed; an exception from a command escapes and leaves it pending.
     */
    method ExecuteTask(id: string, hasCallback: bool) returns (raises: bool)
      requires graph.IdsMatch() && process.Valid() && id in graph.tasks
      modifies process, graph.tasks[id]
      ensures process.Valid() && process.cwd == old(process.cwd)
      ensures raises == CommandsEffect(graph.tasks[id].commands, hasCallback).raises
      ensures process.log == old(process.log) + CommandsEffect(graph.tasks[id].commands, hasCallback).events
                + (if raises then [] else [Completed(id)])
      ensures graph.Status() == if raises then old(graph.Status()) else old(graph.Status())[id := true]
    {
      var task := graph.tasks[id];
      raises := ExecuteCommands(task.commands, hasCallback);
      if !raises {
        graph.MarkAsCompleted(id);
        process.Record(Completed(id));
      }
    }

    /**
     * Runs each task of a round in turn; an exception from a task's commands
     * escapes at once, leaving the rest of the round undone.
     */
    method RunRound(next: seq<string>, hasCallback: bool, ghost table: map<string, Effect>) returns (raises: bool)
      requires graph.IdsMatch() && process.Valid()
      requires Tabulates(graph.tasks, table, hasCallback)
      requires forall k :: k in next ==> k in graph.tasks
      modifies process, graph.tasks.Values
      ensures unchanged(graph)
      ensures process.Valid() && process.cwd == old(process.cwd)
      ensures process.log == old(process.log) + RoundEffect(table, next).events
      ensures raises == RoundEffect(table, next).raises
      ensures graph.Status() == StatusAfter(old(graph.Status()), RoundEffect(table, next).events)
      ensures !raises ==> forall k :: k in next ==> graph.Status()[k]
      ensures Reliable() ==> !raises
    {
      ghost var steps := RoundSteps(table, next);
      for j := 0 to |next|
        invariant unchanged(graph)
        invariant process.Valid() && process.cwd == old(process.cwd)
        invariant !Sequenced(steps[..j]).raises
        invariant process.log == old(process.log) + Sequenced(steps[..j]).events
        invariant graph.Status() == StatusAfter(old(graph.Status()), Sequenced(steps[..j]).events)
      {
        RoundStepsAt(table, next);
        raises := RunTask(next, j, hasCallback, table, steps, old(process.log), old(graph.Status()));
        if raises {
          SequencedStops(steps, j + 1);
          return;
        }
      }
      assert steps[..|next|] == steps;
      RoundCompletesAll(graph.tasks, table, next, hasCallback);
      raises := false;
    }

    /**
     * The task at position `j` of a round, once the tasks before it ran
     * without raising from log `log0` and flags `status0`.
     */
    method RunTask(next: seq<string>, j: nat, hasCallback: bool, ghost table: map<string, Effect>,
                   ghost steps: seq<Effect>, ghost log0: seq<Event>, ghost status0: map<string, bool>)
        returns (raises: bool)
      requires graph.IdsMatch() && process.Valid()
      requires Tabulates(graph.tasks, table, hasCallback)
      requires j < |next| && next[j] in graph.tasks
      requires j < |steps| && steps[j] == Lookup(table, next[j])
      requires !Sequenced(steps[..j]).raises
      requires process.log == log0 + Sequenced(steps[..j]).events
      requires graph.Status() == StatusAfter(status0, Sequenced(steps[..j]).events)
      modifies process, graph.tasks.Values
      ensures unchanged(graph)
      ensures process.Valid() && process.cwd == old(process.cwd)
      ensures raises == Sequenced(steps[..j + 1]).raises
      ensures process.log == log0 + Sequenced(steps[..j + 1]).events
      ensures graph.Status() == StatusAfter(status0, Sequenced(steps[..j + 1]).events)
      ensures Reliable() ==> !raises
    {
      var id := next[j];
      ghost var done := Sequenced(steps[..j]).events;
      SequencedStep(steps, j);
      LookupIsTaskEffect(graph.tasks, table, id, hasCallback);
      raises := ExecuteTask(id, hasCallback);
      ghost var step := steps[j];
      assert process.log == log0 + (done + step.events);
      CommandsNeverComplete(graph.tasks[id].commands, hasCallback);
      StatusAfterTask(old(graph.Status()), CommandsEffect(graph.tasks[id].commands, hasCallback).events, id, !raises);
      StatusAfterAppend(status0, done, step.events);
      if Reliable() {
        ReliableNeverRaises(graph.tasks[id].commands, hasCallback);
      }
    }

    /**
     * One round: runs the tasks ready at its start, in the map's order. No
     * ready task while some task is pending means the pending tasks hold a
     * dependency cycle; a round that does not raise completes at least one
     * pending task.
     */
    method NextRound(hasCallback: bool, ghost table: map<string, Effect>) returns (next: seq<string>, raises: bool)
      requires graph.Runnable() && process.Valid()
      requires Tabulates(graph.tasks, table, hasCallback)
      requires !graph.AllTasksCompleted()
      modifies process, graph.tasks.Values
      ensures unchanged(graph)
      ensures next == ReadyAmong(graph.tasks, old(graph.Status()), graph.order)
      ensures process.Valid() && process.cwd == old(process.cwd)
      ensures next == [] ==>
                && HasCycle(graph.edges) && !raises && process.log == old(process.log)
                && graph.Status() == old(graph.Status()) && graph.Pending() == old(graph.Pending())
      ensures next != [] ==>
                && process.log == old(process.log) + RoundEffect(table, next).events
                && raises == RoundEffect(table, next).raises
                && graph.Status() == StatusAfter(old(graph.Status()), RoundEffect(table, next).events)
      ensures |graph.Pending()| <= old(|graph.Pending()|)
      ensures next != [] && !raises ==> |graph.Pending()| < old(|graph.Pending()|)
      ensures Reliable() ==> !raises
    {
      next := graph.GetNextTasks();
      assert graph.Status() == old(graph.Status()) && graph.Pending() == old(graph.Pending());
      if next == [] {
        graph.NothingReadyMeansCycle(next);
        return next, false;
      }
      assert next[0] in next;
      graph.ReadyIsPending(next[0]);
      raises := AdvanceRound(next, hasCallback, table);
    }

    /** A round that starts with a pending task and does not raise completes it. */
    method AdvanceRound(next: seq<string>, hasCallback: bool, ghost table: map<string, Effect>) returns (raises: bool)
      requires graph.IdsMatch() && process.Valid()
      requires Tabulates(graph.tasks, table, hasCallback)
      requires forall k :: k in next ==> k in graph.tasks
      requires next != [] && next[0] in graph.Pending()
      modifies process, graph.tasks.Values
      ensures unchanged(graph)
      ensures process.Valid() && process.cwd == old(process.cwd)
      ensures process.log == old(process.log) + RoundEffect(table, next).events
      ensures raises == RoundEffect(table, next).raises
      ensures graph.Status() == StatusAfter(old(graph.Status()), RoundEffect(table, next).events)
      ensures |graph.Pending()| <= old(|graph.Pending()|)
      ensures !raises ==> |graph.Pending()| < old(|graph.Pending()|)
      ensures Reliable() ==> !raises
    {
      graph.PendingIsStatus();
      ghost var before := graph.Status();
      raises := RunRound(next, hasCallback, table);
      StatusAfterGrows(before, RoundEffect(table, next).events);
      GrowsShrinksPending(before, graph.Status());
      SubsetSize(PendingOf(graph.Status()), PendingOf(before));
      graph.PendingIsStatus();
      if !raises {
        assert next[0] in next;
        CompletingShrinksPending(before, graph.Status(), next[0]);
      }
    }

    /**
     * Round after round, runs every ready task, and gives up when tasks remain
     * but none is ready or when a task raises. The rounds run form a schedule;
     * success means every task is completed, and failure means the last round
     * raised or the pending tasks are stuck.
     */
    method RunRounds(hasCallback: bool, ghost table: map<string, Effect>)
        returns (success: bool, ghost schedule: seq<seq<string>>)
      requires graph.Runnable() && process.Valid()
      requires Tabulates(graph.tasks, table, hasCallback)
      modifies process, graph.tasks.Values
      ensures unchanged(graph)
      ensures process.Valid() && process.cwd == old(process.cwd)
      ensures IsSchedule(graph.tasks, table, graph.order, old(graph.Status()), schedule)
      ensures process.log == old(process.log) + RoundsEvents(table, schedule)
      ensures graph.Status() == StatusAfter(old(graph.Status()), RoundsEvents(table, schedule))
      ensures success ==> graph.AllTasksCompleted()
      ensures !success ==>
                (schedule != [] && RoundEffect(table, schedule[|schedule| - 1]).raises)
                || (!graph.AllTasksCompleted() && ReadyAmong(graph.tasks, graph.Status(), graph.order) == [])
      ensures |schedule| <= |graph.tasks|
      ensures !HasCycle(graph.edges) && Reliable() ==> success
    {
      schedule := [];
      graph.PendingBound();
      StatusAfterNothing(graph.Status());
      var stop := false;
      while !stop && !graph.AllTasksCompleted()
        invariant unchanged(graph) && graph.Runnable()
        invariant process.Valid() && process.cwd == old(process.cwd)
        invariant IsSchedule(graph.tasks, table, graph.order, old(graph.Status()), schedule)
        invariant process.log == old(process.log) + RoundsEvents(table, schedule)
        invariant graph.Status() == StatusAfter(old(graph.Status()), RoundsEvents(table, schedule))
        invariant !stop ==> schedule != [] ==> !RoundEffect(table, schedule[|schedule| - 1]).raises
        invariant !stop ==> |schedule| <= |graph.tasks| - |graph.Pending()|
        invariant stop ==>
                    && |schedule| <= |graph.tasks|
                    && (HasCycle(graph.edges) || !Reliable())
                    && ((schedule != [] && RoundEffect(table, schedule[|schedule| - 1]).raises)
                        || (!graph.AllTasksCompleted() && ReadyAmong(graph.tasks, graph.Status(), graph.order) == []))
        decreases |graph.Pending()|, !stop
      {
        stop, schedule := ScheduleRound(hasCallback, table, old(graph.Status()), old(process.log), schedule);
      }
      success := !stop;
    }

    /**
     * One pass of the scheduling loop after the rounds of `schedule` ran from
     * log `log0` and flags `s0`: the ready tasks, if any, run as the next
     * round, and the loop stops when there were none or one of them raised.
     */
    method ScheduleRound(hasCallback: bool, ghost table: map<string, Effect>, ghost s0: map<string, bool>,
                         ghost log0: seq<Event>, ghost schedule: seq<seq<string>>)
        returns (stop: bool, ghost longer: seq<seq<string>>)
      requires graph.Runnable() && process.Valid() && !graph.AllTasksCompleted()
      requires Tabulates(graph.tasks, table, hasCallback)
      requires IsSchedule(graph.tasks, table, graph.order, s0, schedule)
      requires schedule != [] ==> !RoundEffect(table, schedule[|schedule| - 1]).raises
      requires process.log == log0 + RoundsEvents(table, schedule)
      requires graph.Status() == StatusAfter(s0, RoundsEvents(table, schedule))
      requires |schedule| <= |graph.tasks| - |graph.Pending()|
      modifies process, graph.tasks.Values
      ensures unchanged(graph)
      ensures process.Valid() && process.cwd == old(process.cwd)
      ensures IsSchedule(graph.tasks, table, graph.order, s0, longer)
      ensures process.log == log0 + RoundsEvents(table, longer)
      ensures graph.Status() == StatusAfter(s0, RoundsEvents(table, longer))
      ensures !stop ==> longer != [] && !RoundEffect(table, longer[|longer| - 1]).raises
      ensures !stop ==> |longer| <= |graph.tasks| - |graph.Pending()| && |graph.Pending()| < old(|graph.Pending()|)
      ensures |graph.Pending()| <= old(|graph.Pending()|)
      ensures stop ==>
                && |longer| <= |graph.tasks|
                && (HasCycle(graph.edges) || !Reliable())
                && ((longer != [] && RoundEffect(table, longer[|longer| - 1]).raises)
                    || (!graph.AllTasksCompleted() && ReadyAmong(graph.tasks, graph.Status(), graph.order) == []))
    {
      var next, raises := NextRound(hasCallback, table);
      if next == [] {
        return true, schedule;
      }
      ScheduleExtend(graph.tasks, table, graph.order, s0, log0, schedule, next);
      longer := schedule + [next];
      stop := raises;
    }

    /**
     * Runs the whole graph: refuses an empty graph or one with a dependency
     * cycle before running anything, then runs it round by round. `table`
     * records what each task does when run. Every task completes after the
     * dependencies it waits for. Otherwise a run fails only when a round
     * raises or no pending task is ready, and in an acyclic, non-empty graph
     * with a reliable environment it succeeds.
     */
    method ExecuteTasks(hasCallback: bool)
        returns (success: bool, ghost table: map<string, Effect>, ghost schedule: seq<seq<string>>)
      requires graph.Valid() && process.Valid()
      modifies process, graph.tasks.Values
      ensures unchanged(graph)
      ensures process.Valid() && process.cwd == old(process.cwd)
      ensures Tabulates(graph.tasks, table, hasCallback)
      ensures IsSchedule(graph.tasks, table, graph.order, old(graph.Status()), schedule)
      ensures process.log == old(process.log) + RoundsEvents(table, schedule)
      ensures graph.Status() == StatusAfter(old(graph.Status()), RoundsEvents(table, schedule))
      ensures DependencyOrdered(graph.tasks, old(graph.Status()), RoundsEvents(table, schedule))
      ensures success ==> graph.AllTasksCompleted()
      ensures !success ==>
                || graph.tasks == map[] || HasCycle(graph.edges)
                || (schedule != [] && RoundEffect(table, schedule[|schedule| - 1]).raises)
                || (!graph.AllTasksCompleted() && ReadyAmong(graph.tasks, graph.Status(), graph.order) == [])
      ensures graph.tasks == map[] ==> !success && schedule == []
      ensures HasCycle(graph.edges) ==> !success && schedule == []
      ensures |schedule| <= |graph.tasks|
      ensures graph.tasks != map[] && !HasCycle(graph.edges) && Reliable() ==> success
    {
      table := EffectTable(graph.tasks, hasCallback);
      StatusAfterNothing(graph.Status());
      if graph.tasks == map[] {
        return false, table, [];
      }
      var plan := graph.GetExecutionOrder();
      assert graph.Status() == old(graph.Status()) && process.log == old(process.log);
      if plan.CycleError? {
        return false, table, [];
      }
      graph.ValidRunnable();
      success, schedule := RunRounds(hasCallback, table);
      ScheduleRespectsDependencies(graph.tasks, table, graph.order, old(graph.Status()), schedule, hasCallback);
    }
  }

  lemma {:induction false} DeliveriesAppend(chunks: seq<string>, chunk: string)
    ensures Deliveries(chunks + [chunk]) == Deliveries(chunks) + [Delivered(chunk)]
  {
  }
}
