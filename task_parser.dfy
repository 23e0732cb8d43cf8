/**
 * Task definitions, the task graph and the parsing of a workflow document
 * into a graph. The directed graph is an explicit node list, in insertion
 * order, and an edge set; its execution order is the topological sort of
 * `Digraph`, which succeeds exactly when the edges have no cycle.
 */
module TaskParser {
  import opened Text
  import opened Digraph
  import opened TaskDocument

  /** One task. Everything is fixed at creation except the completion flag. */
  class TaskDefinition {
    const id: string
    const title: string
    const description: string
    const dependsOn: seq<string>
    const commands: seq<string>
    var isCompleted: bool

    /** A new task starts not completed. */
    constructor (id: string, title: string, description: string, dependsOn: seq<string>, commands: seq<string>)
      ensures Spec() == TaskSpec(id, title, description, dependsOn, commands)
      ensures !isCompleted
    {
      this.id := id;
      this.title := title;
      this.description := description;
      this.dependsOn := dependsOn;
      this.commands := commands;
      isCompleted := false;
    }

    function Spec(): TaskSpec {
      TaskSpec(id, title, description, dependsOn, commands)
    }
  }

  // ---------------------------------------------------------------------------
  // The shape of a task graph, as a value

  /**
   * Everything about a task graph except completion: the tasks by id, the ids
   * in the order the map first saw them, the graph's nodes in the order they
   * were added, and its edges (dependency to dependent).
   */
  datatype GraphShape = GraphShape(
    specs: map<string, TaskSpec>,
    order: seq<string>,
    nodes: seq<Node>,
    edges: set<(Node, Node)>)

  const EmptyShape: GraphShape := GraphShape(map[], [], [], {})

  function AddNode(nodes: seq<Node>, x: Node): seq<Node> {
    if x in nodes then nodes else nodes + [x]
  }

  /** The nodes after adding an edge from every non-empty dependency. */
  function AddDependencyNodes(nodes: seq<Node>, deps: seq<string>): seq<Node> {
    if deps == [] then nodes
    else
      var m := AddDependencyNodes(nodes, deps[..|deps| - 1]);
      if deps[|deps| - 1] != "" then AddNode(m, deps[|deps| - 1]) else m
  }

  /** One edge from each non-empty dependency to the task. */
  function DependencyEdges(id: string, deps: seq<string>): set<(Node, Node)> {
    set d | d in deps && d != "" :: (d, id)
  }

  /** What registering one task does to the graph. */
  function AddShape(g: GraphShape, t: TaskSpec): GraphShape {
    GraphShape(
      g.specs[t.id := t],
      if t.id in g.specs then g.order else g.order + [t.id],
      AddDependencyNodes(AddNode(g.nodes, t.id), t.dependsOn),
      g.edges + DependencyEdges(t.id, t.dependsOn))
  }

  /** The graph built by registering the tasks one after another. */
  function Built(specs: seq<TaskSpec>): GraphShape {
    if specs == [] then EmptyShape
    else AddShape(Built(specs[..|specs| - 1]), specs[|specs| - 1])
  }

  /**
   * What every reachable graph satisfies: each task is stored under its own id,
   * the id order lists the stored ids once each, every task is a node, every
   * edge joins two nodes, and each task's dependency edges are present.
   */
  ghost predicate ShapeValid(g: GraphShape) {
    && (forall k :: k in g.specs ==> g.specs[k].id == k)
    && (forall k :: k in g.specs <==> k in g.order)
    && Distinct(g.order)
    && Distinct(g.nodes)
    && (forall k :: k in g.specs ==> k in g.nodes)
    && EdgesWithin(g.nodes, g.edges)
    && (forall k :: k in g.specs ==> DependencyEdges(k, g.specs[k].dependsOn) <= g.edges)
  }

  lemma {:induction false} AddDependencyNodesSpec(nodes: seq<Node>, deps: seq<string>)
    requires Distinct(nodes)
    ensures var r := AddDependencyNodes(nodes, deps);
      && Distinct(r)
      && |nodes| <= |r| && r[..|nodes|] == nodes
      && forall x :: x in r <==> x in nodes || (x in deps && x != "")
  {
    if deps != [] {
      var init := deps[..|deps| - 1];
      AddDependencyNodesSpec(nodes, init);
      assert deps == init + [deps[|deps| - 1]];
    }
  }

  /**
   * Registering a task stores it under its id (replacing an earlier task with
   * that id but keeping that id's place in the order), makes the task and each
   * non-empty dependency a node, and adds exactly one edge per non-empty
   * dependency; everything already there stays.
   */
  lemma AddShapeSpec(g: GraphShape, t: TaskSpec)
    ensures var r := AddShape(g, t);
      && r.specs == g.specs[t.id := t]
      && (t.id in g.specs ==> r.order == g.order)
      && (t.id !in g.specs ==> r.order == g.order + [t.id])
      && (forall x :: x in r.nodes <==> x in g.nodes || x == t.id || (x in t.dependsOn && x != ""))
      && (forall a, b :: (a, b) in r.edges <==> (a, b) in g.edges || (b == t.id && a in t.dependsOn && a != ""))
  {
    var n1 := AddNode(g.nodes, t.id);
    AddDependencyNodesMembers(n1, t.dependsOn);
  }

  lemma {:induction false} AddDependencyNodesMembers(nodes: seq<Node>, deps: seq<string>)
    ensures forall x :: x in AddDependencyNodes(nodes, deps) <==> x in nodes || (x in deps && x != "")
  {
    if deps != [] {
      var init := deps[..|deps| - 1];
      AddDependencyNodesMembers(nodes, init);
      assert deps == init + [deps[|deps| - 1]];
    }
  }

  /** Registering a task keeps a graph well formed and keeps its earlier nodes in place. */
  lemma AddShapeValid(g: GraphShape, t: TaskSpec)
    requires ShapeValid(g)
    ensures ShapeValid(AddShape(g, t))
    ensures |g.nodes| <= |AddShape(g, t).nodes| && AddShape(g, t).nodes[..|g.nodes|] == g.nodes
  {
    var r := AddShape(g, t);
    var n1 := AddNode(g.nodes, t.id);
    assert Distinct(n1);
    assert |g.nodes| <= |n1| && n1[..|g.nodes|] == g.nodes;
    AddDependencyNodesSpec(n1, t.dependsOn);
    assert forall k :: k in r.specs ==> r.specs[k].id == k;
    assert forall k :: k in r.specs <==> k in r.order;
    assert Distinct(r.order);
    assert forall k :: k in r.specs ==> k in r.nodes by {
      forall k | k in r.specs ensures k in r.nodes {
        if k != t.id {
          assert k in g.nodes;
        }
      }
    }
    assert EdgesWithin(r.nodes, r.edges) by {
      forall e | e in r.edges ensures e.0 in r.nodes && e.1 in r.nodes {
        if e !in g.edges {
          var d :| d in t.dependsOn && d != "" && e == (d, t.id);
        }
      }
    }
    forall k | k in r.specs ensures DependencyEdges(k, r.specs[k].dependsOn) <= r.edges {
      if k != t.id {
        assert DependencyEdges(k, g.specs[k].dependsOn) <= g.edges;
      }
    }
  }

  /** The empty graph is well formed, and so is every graph built from it. */
  lemma {:induction false} BuiltValid(specs: seq<TaskSpec>)
    ensures ShapeValid(Built(specs))
  {
    if specs != [] {
      BuiltValid(specs[..|specs| - 1]);
      AddShapeValid(Built(specs[..|specs| - 1]), specs[|specs| - 1]);
    }
  }

  /** The task map alone of a built graph: later tasks overwrite earlier ones. */
  function StoredSpecs(specs: seq<TaskSpec>): map<string, TaskSpec> {
    if specs == [] then map[]
    else StoredSpecs(specs[..|specs| - 1])[specs[|specs| - 1].id := specs[|specs| - 1]]
  }

  lemma {:induction false} BuiltStoredSpecs(specs: seq<TaskSpec>)
    ensures Built(specs).specs == StoredSpecs(specs)
  {
    if specs != [] {
      BuiltStoredSpecs(specs[..|specs| - 1]);
    }
  }

  /**
   * After registering a list of tasks, an id is stored exactly when some task
   * carried it, and it holds the last task that did.
   */
  lemma {:induction false} BuiltSpecs(specs: seq<TaskSpec>, id: string)
    ensures var g := Built(specs);
      && (id in g.specs <==> exists i :: 0 <= i < |specs| && specs[i].id == id)
      && (id in g.specs ==> exists i :: (0 <= i < |specs| && g.specs[id] == specs[i]
            && forall j :: i < j < |specs| ==> specs[j].id != id))
  {
    BuiltStoredSpecs(specs);
    StoredSpecsLast(specs, id);
  }

  lemma {:induction false} StoredSpecsLast(specs: seq<TaskSpec>, id: string)
    ensures var m := StoredSpecs(specs);
      && (id in m <==> exists i :: 0 <= i < |specs| && specs[i].id == id)
      && (id in m ==> exists i :: (0 <= i < |specs| && m[id] == specs[i]
            && forall j :: i < j < |specs| ==> specs[j].id != id))
  {
    if specs != [] {
      var init := specs[..|specs| - 1];
      StoredSpecsLast(init, id);
      assert forall i :: 0 <= i < |init| ==> init[i] == specs[i];
      var last := specs[|specs| - 1];
      if last.id != id {
        if exists i :: 0 <= i < |specs| && specs[i].id == id {
          var i :| 0 <= i < |specs| && specs[i].id == id;
          assert i < |init|;
        }
      }
    }
  }

  /**
   * The edges of a built graph are exactly the dependency edges of every task
   * ever registered, including tasks later replaced under the same id.
   */
  lemma {:induction false} BuiltEdges(specs: seq<TaskSpec>, a: Node, b: Node)
    ensures (a, b) in Built(specs).edges
        <==> exists i :: 0 <= i < |specs| && specs[i].id == b && a in specs[i].dependsOn && a != ""
  {
    if specs != [] {
      var init := specs[..|specs| - 1];
      BuiltEdges(init, a, b);
      AddShapeSpec(Built(init), specs[|specs| - 1]);
      assert forall i :: 0 <= i < |init| ==> init[i] == specs[i];
      if exists i :: 0 <= i < |specs| && specs[i].id == b && a in specs[i].dependsOn && a != "" {
        var i :| 0 <= i < |specs| && specs[i].id == b && a in specs[i].dependsOn && a != "";
        if i < |init| {
          assert init[i] == specs[i];
        }
      }
    }
  }

  /**
   * The nodes of a built graph are the task ids and the non-empty dependency
   * ids, whether or not a task with that id exists.
   */
  lemma {:induction false} BuiltNodes(specs: seq<TaskSpec>, x: Node)
    ensures x in Built(specs).nodes
        <==> exists i :: 0 <= i < |specs| && (specs[i].id == x || (x in specs[i].dependsOn && x != ""))
  {
    if specs != [] {
      var init := specs[..|specs| - 1];
      BuiltNodes(init, x);
      AddShapeSpec(Built(init), specs[|specs| - 1]);
      assert forall i :: 0 <= i < |init| ==> init[i] == specs[i];
      if exists i :: 0 <= i < |specs| && (specs[i].id == x || (x in specs[i].dependsOn && x != "")) {
        var i :| 0 <= i < |specs| && (specs[i].id == x || (x in specs[i].dependsOn && x != ""));
        if i < |init| {
          assert init[i] == specs[i];
        }
      }
    }
  }

  /** Adds the task's node, then a node and an edge for each non-empty dependency. */
  method LinkDependencies(nodes: seq<Node>, edges: set<(Node, Node)>, id: string, deps: seq<string>)
    returns (ns: seq<Node>, es: set<(Node, Node)>)
    ensures ns == AddDependencyNodes(AddNode(nodes, id), deps)
    ensures es == edges + DependencyEdges(id, deps)
  {
    ns := AddNode(nodes, id);
    es := edges;
    for i := 0 to |deps|
      invariant ns == AddDependencyNodes(AddNode(nodes, id), deps[..i])
      invariant es == edges + DependencyEdges(id, deps[..i])
    {
      var d := deps[i];
      assert deps[..i + 1] == deps[..i] + [d];
      if d != "" {
        ns := AddNode(ns, d);
        es := es + {(d, id)};
      }
    }
    assert deps[..|deps|] == deps;
  }

  // ---------------------------------------------------------------------------
  // The task graph object

  datatype OrderResult = Order(ids: seq<Node>) | CycleError

  /** The same tasks, and every task completed before is still completed. */
  ghost predicate Grows(before: map<string, bool>, after: map<string, bool>) {
    after.Keys == before.Keys && forall k :: k in before && before[k] ==> after[k]
  }

  /** The ids a completion map marks as not completed. */
  ghost function PendingOf(status: map<string, bool>): set<string> {
    set k | k in status && !status[k]
  }

  /** Completion growing can only shrink the pending set. */
  lemma GrowsShrinksPending(before: map<string, bool>, after: map<string, bool>)
    requires Grows(before, after)
    ensures PendingOf(after) <= PendingOf(before)
  {
  }

  /** Completing a pending task while completion grows shrinks the pending set. */
  lemma CompletingShrinksPending(before: map<string, bool>, after: map<string, bool>, id: string)
    requires Grows(before, after)
    requires id in PendingOf(before) && after[id]
    ensures |PendingOf(after)| < |PendingOf(before)|
  {
    GrowsShrinksPending(before, after);
    assert PendingOf(after) <= PendingOf(before) - {id};
    SubsetSize(PendingOf(after), PendingOf(before) - {id});
  }

  /**
   * Task `id` of `tasks` could run under the completion flags `status`: it is
   * not completed and every dependency naming a task of the map is.
   */
  ghost predicate ReadyUnder(tasks: map<string, TaskDefinition>, status: map<string, bool>, id: string) {
    && id in tasks && id in status && !status[id]
    && forall d | d in tasks[id].dependsOn :: d != "" && d in tasks ==> d in status && status[d]
  }

  /** The ids of `ids` that could run under `status`, in the order of `ids`. */
  ghost function ReadyAmong(tasks: map<string, TaskDefinition>, status: map<string, bool>, ids: seq<string>): seq<string> {
    if ids == [] then []
    else
      var last := ids[|ids| - 1];
      ReadyAmong(tasks, status, ids[..|ids| - 1]) + (if ReadyUnder(tasks, status, last) then [last] else [])
  }

  lemma {:induction false} ReadyAmongMembers(tasks: map<string, TaskDefinition>, status: map<string, bool>, ids: seq<string>)
    ensures forall x :: x in ReadyAmong(tasks, status, ids) <==> x in ids && ReadyUnder(tasks, status, x)
  {
    if ids != [] {
      var init := ids[..|ids| - 1];
      ReadyAmongMembers(tasks, status, init);
      assert ids == init + [ids[|ids| - 1]];
    }
  }

  /** The fixed part of every task of a map. */
  function SpecsOf(tasks: map<string, TaskDefinition>): map<string, TaskSpec> {
    map k | k in tasks :: tasks[k].Spec()
  }

  lemma SpecsOfUpdate(tasks: map<string, TaskDefinition>, t: TaskDefinition)
    ensures SpecsOf(tasks[t.id := t]) == SpecsOf(tasks)[t.id := t.Spec()]
  {
    var a, b := SpecsOf(tasks[t.id := t]), SpecsOf(tasks)[t.id := t.Spec()];
    assert a.Keys == b.Keys;
    forall k | k in a ensures a[k] == b[k] {
    }
  }

  class TaskGraph {
    var tasks: map<string, TaskDefinition>
    /** The ids of `tasks` in the order the map iterates them (first insertion). */
    var order: seq<string>
    var metadata: map<string, string>
    var nodes: seq<Node>
    var edges: set<(Node, Node)>

    /** The graph without completion flags. */
    function Shape(): GraphShape
      reads this
    {
      GraphShape(SpecsOf(tasks), order, nodes, edges)
    }

    ghost predicate Valid()
      reads this
    {
      ShapeValid(Shape())
    }

    /** Each task is stored under its own id, so distinct ids hold distinct tasks. */
    ghost predicate IdsMatch()
      reads this
    {
      forall k :: k in tasks ==> tasks[k].id == k
    }

    /**
     * The part of `Valid` that running the graph relies on: ids match, the id
     * order lists exactly the keys, and each dependency of a task has its edge.
     */
    ghost predicate Runnable()
      reads this
    {
      && IdsMatch()
      && (forall k :: k in order <==> k in tasks)
      && (forall k :: k in tasks ==> DependencyEdges(k, tasks[k].dependsOn) <= edges)
    }

    lemma ValidRunnable()
      requires Valid()
      ensures Runnable()
    {
      forall k | k in tasks
        ensures tasks[k].id == k && DependencyEdges(k, tasks[k].dependsOn) <= edges
      {
        assert Shape().specs[k] == tasks[k].Spec();
      }
      forall k ensures k in order <==> k in tasks {
        assert k in tasks <==> k in Shape().specs;
      }
    }

    /** The completion flag of every task. */
    function Status(): (r: map<string, bool>)
      reads this, tasks.Values
      ensures r.Keys == tasks.Keys
    {
      map k | k in tasks :: tasks[k].isCompleted
    }

    /** The ids of the tasks not yet completed. */
    ghost function Pending(): set<string>
      reads this, tasks.Values
    {
      set k | k in tasks && !tasks[k].isCompleted
    }

    constructor ()
      ensures Valid() && Shape() == EmptyShape
      ensures tasks == map[] && metadata == map[]
    {
      tasks := map[];
      order := [];
      metadata := map[];
      nodes := [];
      edges := {};
    }

    /**
     * Registers a task under its id and adds the task's node, a node for each
     * non-empty dependency and an edge from it to the task.
     */
    method AddTask(t: TaskDefinition)
      requires Valid()
      modifies this
      ensures Valid()
      ensures Shape() == AddShape(old(Shape()), t.Spec())
      ensures tasks == old(tasks)[t.id := t]
      ensures metadata == old(metadata)
    {
      ghost var before := Shape();
      var ns, es := LinkDependencies(nodes, edges, t.id, t.dependsOn);
      if t.id !in tasks {
        order := order + [t.id];
      }
      tasks := tasks[t.id := t];
      nodes, edges := ns, es;
      assert tasks == old(tasks)[t.id := t] && metadata == old(metadata);
      assert Shape() == AddShape(before, t.Spec()) by {
        SpecsOfUpdate(old(tasks), t);
      }
      AddShapeValid(before, t.Spec());
    }

    /** Every dependency that names a task in the map is completed. */
    predicate DependenciesCompleted(t: TaskDefinition)
      reads this, tasks.Values
    {
      forall d | d in t.dependsOn :: d != "" && d in tasks ==> tasks[d].isCompleted
    }

    /** A task can run now: it is not completed and nothing it depends on is pending. */
    predicate IsReady(id: string)
      requires id in tasks
      reads this, tasks.Values
    {
      !tasks[id].isCompleted && DependenciesCompleted(tasks[id])
    }

    lemma IsReadyUnder(id: string)
      requires id in tasks
      ensures IsReady(id) <==> ReadyUnder(tasks, Status(), id)
    {
    }

    /**
     * The tasks that can run now, in the map's order: a task is listed exactly
     * when it is not completed and every dependency present in the map is.
     */
    method GetNextTasks() returns (ready: seq<string>)
      requires Runnable()
      ensures ready == ReadyAmong(tasks, Status(), order)
      ensures forall id :: id in ready <==> id in tasks && IsReady(id)
    {
      ready := [];
      for i := 0 to |order|
        invariant ready == ReadyAmong(tasks, Status(), order[..i])
      {
        var id := order[i];
        assert order[..i + 1] == order[..i] + [id];
        IsReadyUnder(id);
        var task := tasks[id];
        if !task.isCompleted && DependenciesCompleted(task) {
          ready := ready + [id];
        }
      }
      assert order[..|order|] == order;
      ReadyAmongMembers(tasks, Status(), order);
      forall id | id in tasks ensures IsReady(id) <==> ReadyUnder(tasks, Status(), id) {
        IsReadyUnder(id);
      }
    }

    /** Completes the task with this id, if there is one; nothing else changes. */
    method MarkAsCompleted(id: string)
      requires IdsMatch()
      modifies if id in tasks then {tasks[id]} else {}
      ensures Status() == if id in old(Status()) then old(Status())[id := true] else old(Status())
      ensures Grows(old(Status()), Status())
    {
      if id in tasks {
        tasks[id].isCompleted := true;
      }
    }

    /** Every task is completed; true of an empty map. */
    function AllTasksCompleted(): (r: bool)
      reads this, tasks.Values
      ensures r <==> Pending() == {}
      ensures tasks == map[] ==> r
    {
      PendingEmpty();
      forall k | k in tasks :: tasks[k].isCompleted
    }

    /** A ready task is a pending one. */
    lemma ReadyIsPending(id: string)
      requires id in tasks && IsReady(id)
      ensures id in Pending() && id in PendingOf(Status())
    {
    }

    lemma PendingIsStatus()
      ensures Pending() == PendingOf(Status())
    {
    }

    /** There are never more pending tasks than tasks. */
    lemma PendingBound()
      ensures |Pending()| <= |tasks|
    {
      SubsetSize(Pending(), tasks.Keys);
    }

    lemma PendingEmpty()
      ensures Pending() == {} <==> forall k :: k in tasks ==> tasks[k].isCompleted
    {
      if k :| k in tasks && !tasks[k].isCompleted {
        assert k in Pending();
      }
    }

    /**
     * When some task is pending and none is ready, the pending tasks hold a
     * dependency cycle: each waits on another pending task.
     */
    lemma StuckMeansCycle()
      requires Runnable()
      requires Pending() != {}
      requires forall id :: id in tasks ==> !IsReady(id)
      ensures HasCycleWithin(edges, Pending())
    {
      var s := Pending();
      forall x | x in s ensures HasPredecessor(edges, s, x) {
        var t := tasks[x];
        assert !DependenciesCompleted(t);
        var d :| d in t.dependsOn && d != "" && d in tasks && !tasks[d].isCompleted;
        assert d in s;
        assert (d, x) in DependencyEdges(x, t.dependsOn);
      }
      NoSourceHasCycle(edges, s);
    }

    /** A pending task and an empty ready list mean a dependency cycle. */
    lemma NothingReadyMeansCycle(ready: seq<string>)
      requires Runnable() && !AllTasksCompleted()
      requires forall id :: id in ready <==> id in tasks && IsReady(id)
      requires ready == []
      ensures HasCycle(edges)
    {
      StuckMeansCycle();
      var c :| IsCycle(edges, c) && forall x :: x in c ==> x in Pending();
    }

    /**
     * A topological order of all graph nodes (dependencies not in the map
     * included), or an error when the dependencies form a cycle.
     */
    method GetExecutionOrder() returns (r: OrderResult)
      requires Valid()
      ensures r.CycleError? <==> HasCycle(edges)
      ensures r.Order? ==> IsTopologicalOrder(nodes, edges, r.ids)
    {
      var sorted := TopologicalSort(nodes, edges);
      match sorted
      case Sorted(ids) => r := Order(ids);
      case Cyclic(_) => r := CycleError;
    }
  }

  // ---------------------------------------------------------------------------
  // Parsing a document

  /** A line with a colon is its key, the colon and its value. */
  lemma FirstColonSplit(line: string)
    requires ':' in line
    ensures var c := IndexOf(line, ':');
      && line == line[..c] + ":" + line[c + 1..]
      && ':' !in line[..c]
      && KeyOf(line) == Trim(line[..c]) && ValueOf(line) == Trim(line[c + 1..])
  {
    var c := IndexOf(line, ':');
    assert line == line[..c] + [line[c]] + line[c + 1..];
  }

  /** The document's metadata, with the fallback scan run as a loop. */
  method ParseMetadata(content: string, loadYaml: string -> YamlOutcome) returns (m: map<string, string>)
    ensures m == Metadata(content, loadYaml)
  {
    m := map[];
    match MetadataSection(content) {
      case None =>
      case Some(section) =>
        match loadYaml(YamlText(section)) {
          case Loaded(loaded) =>
            m := loaded;
          case YamlError =>
            m := FallbackScan(MetadataLines(section));
        }
    }
  }

  /** The fallback scan: each line with a colon sets its key, in line order. */
  method FallbackScan(lines: seq<string>) returns (m: map<string, string>)
    ensures m == FallbackMetadata(lines)
  {
    m := map[];
    for i := 0 to |lines|
      invariant m == FallbackMetadata(lines[..i])
    {
      assert lines[..i + 1][..i] == lines[..i];
      var line := lines[i];
      if ':' in line {
        m := m[KeyOf(line) := ValueOf(line)];
      }
    }
    assert lines[..|lines|] == lines;
  }

  /** The commands of a task body, collected block by block. */
  method ExtractCommands(body: string) returns (commands: seq<string>)
    ensures commands == Commands(FenceBodies(body))
  {
    var fences := FenceBodies(body);
    commands := [];
    for j := 0 to |fences|
      invariant commands == Commands(fences[..j])
    {
      assert fences[..j + 1][..j] == fences[..j];
      commands := commands + BlockCommands(fences[j]);
    }
    assert fences[..|fences|] == fences;
  }

  /** The task a matched block describes, not yet completed. */
  method NewTask(block: Block) returns (t: TaskDefinition)
    ensures fresh(t) && t.Spec() == ToSpec(block) && !t.isCompleted
  {
    var body := Trim(block.body);
    var commands := ExtractCommands(body);
    t := new TaskDefinition(block.id, Title(block.id, body), Description(body),
                            Dependencies(block.depends), commands);
  }

  /** Adds the task of one block to a graph built from the blocks before it. */
  method AddBlock(g: TaskGraph, block: Block, ghost prefix: seq<TaskSpec>)
    requires g.Shape() == Built(prefix)
    requires forall k :: k in g.tasks ==> !g.tasks[k].isCompleted
    modifies g
    ensures g.Shape() == Built(prefix + [ToSpec(block)])
    ensures g.metadata == old(g.metadata)
    ensures forall k :: k in g.tasks ==> !g.tasks[k].isCompleted
  {
    var t := NewTask(block);
    BuiltValid(prefix);
    g.AddTask(t);
    assert (prefix + [ToSpec(block)])[..|prefix|] == prefix;
  }

  /** A graph holding the given metadata and one task per block, added in order. */
  method BuildGraph(blocks: seq<Block>, metadata: map<string, string>) returns (g: TaskGraph)
    ensures fresh(g) && g.Valid()
    ensures g.Shape() == Built(BlockSpecs(blocks))
    ensures g.metadata == metadata
    ensures forall k :: k in g.tasks ==> !g.tasks[k].isCompleted
  {
    g := new TaskGraph();
    g.metadata := metadata;
    for i := 0 to |blocks|
      invariant g.Shape() == Built(BlockSpecs(blocks[..i]))
      invariant g.metadata == metadata
      invariant forall k :: k in g.tasks ==> !g.tasks[k].isCompleted
    {
      AddBlock(g, blocks[i], BlockSpecs(blocks[..i]));
      assert blocks[..i + 1][..i] == blocks[..i];
    }
    assert blocks[..|blocks|] == blocks;
    BuiltValid(BlockSpecs(blocks));
  }

  /**
   * Builds the task graph of a document. The YAML loader is a parameter; the
   * fallback scan runs when it reports an error.
   */
  method ParseTaskFile(content: string, loadYaml: string -> YamlOutcome) returns (g: TaskGraph)
    ensures fresh(g) && g.Valid()
    ensures g.Shape() == Built(DocumentSpecs(content))
    ensures g.metadata == Metadata(content, loadYaml)
    ensures forall k :: k in g.tasks ==> !g.tasks[k].isCompleted
  {
    var metadata := ParseMetadata(content, loadYaml);
    g := BuildGraph(TaskBlocks(content), metadata);
  }
}
