/**
 * The starter workflow document the command-line tool writes: a header with
 * metadata and a description, `n` example tasks each depending on the one
 * before it, a `final` task depending on the first `n - 1` of them when
 * `n > 2`, and closing notes. The current date is a parameter.
 *
 * The lemmas read the document back with the task scanner: it yields exactly
 * the tasks written, with the dependencies written, and the graph they make
 * has no cycle, so the generated workflow can run to completion.
 */
module TaskTemplate {
  import opened Text
  import opened Digraph
  import opened TaskDocument
  import opened TaskParser

  // ---------------------------------------------------------------------------
  // The document

  /**
   * One task entry of the document: the text before its marker (the list
   * number), the marker's two attributes, and the text after the marker.
   */
  datatype Entry = Entry(lead: string, id: string, depends: string, body: string)

  function EntryText(e: Entry): string {
    e.lead + MarkerText(e.id, e.depends) + e.body
  }

  function EntriesText(es: seq<Entry>): string {
    if es == [] then "" else EntryText(es[0]) + EntriesText(es[1..])
  }

  /** The id of the `i`-th example task. */
  function TaskId(i: nat): string {
    "task" + NatToString(i)
  }

  /** `task1`, ..., `task<count>`. */
  function TaskIds(count: nat): (ids: seq<string>)
    ensures |ids| == count && forall k :: 0 <= k < count ==> ids[k] == TaskId(k + 1)
  {
    if count == 0 then [] else TaskIds(count - 1) + [TaskId(count)]
  }

  // The fixed text of the document, cut into pieces short enough for the
  // verifier to check character by character; they are joined below around
  // the values the document interpolates.

  const Header1: string := "# AtlasAI Task: My Project Workflow\n\n"
  const Header2: string := "## Metadata\n- author: Your Name\n"
  const Header3: string := "- date: "
  const Header4: string := "\n- priority: high\n"
  const Header5: string := "- allow_file_operations: true\n\n"
  const Header6: string := "## Description\nThis is a template "
  const Header7: string := "task workflow. Edit this description "
  const Header8: string := "to explain what this workflow will "
  const Header9: string := "accomplish.\nReplace the task "
  const Header10: string := "definitions below with your actual "
  const Header11: string := "tasks.\n\n## Tasks\n"
  const Task1: string := "\n   ### Task "
  const Task2: string := " Title\n   Description of task "
  const Task3: string := ". Explain what this task does and "
  const Task4: string := "why it's important.\n   \n   ```bash\n"
  const Task5: string := "   # Replace with actual commands "
  const Task6: string := "for this task\n   echo \"Executing task "
  const Task7: string := "\"\n   ```\n\n"
  const Final1: string := "\n   ### Final Task\n"
  const Final2: string := "   This task depends on all previous "
  const Final3: string := "tasks and runs only when they are "
  const Final4: string := "complete.\n   \n   ```bash\n"
  const Final5: string := "   # Replace with your final commands\n"
  const Final6: string := "   echo \"All tasks completed, "
  const Final7: string := "running final task\"\n   ```\n"
  const Notes1: string := "\n## Notes\n- Each task must have "
  const Notes2: string := "a unique ID\n- The \"depends\" "
  const Notes3: string := "attribute lists the IDs of tasks "
  const Notes4: string := "that must complete before this task\n"
  const Notes5: string := "- Multiple dependencies should be "
  const Notes6: string := "comma-separated\n- Commands are "
  const Notes7: string := "executed in the order they appear\n"
  const Notes8: string := "- Use atlasai commands for AI-powered "
  const Notes9: string := "operations\n"

  const HeaderAfterDate: string :=
    Header4 + Header5 + Header6 + Header7 + Header8 + Header9 + Header10 + Header11
  const TaskDescriptionTail: string := Task3 + Task4 + Task5 + Task6
  const FinalBody: string := Final1 + Final2 + Final3 + Final4 + Final5 + Final6 + Final7
  const Notes: string := Notes1 + Notes2 + Notes3 + Notes4 + Notes5 + Notes6 + Notes7 + Notes8 + Notes9

  function Header(today: string): string {
    Header1 + Header2 + Header3 + today + HeaderAfterDate
  }

  /** The list number in front of a marker. */
  function Lead(i: nat): string {
    "\n" + NatToString(i) + ". "
  }

  /** The `i`-th example task; from the second on, each depends on the one before. */
  function TaskEntry(i: nat): Entry {
    var n := NatToString(i);
    Entry(Lead(i), TaskId(i), if i > 1 then TaskId(i - 1) else "",
      Task1 + n + Task2 + n + TaskDescriptionTail + n + Task7)
  }

  /** The closing task, listed after `count` example tasks, depending on all but the last. */
  function FinalEntry(count: nat): Entry
    requires count > 0
  {
    Entry(Lead(count + 1), "final", Join(TaskIds(count - 1), ", "), FinalBody)
  }

  function TaskEntries(count: nat): (es: seq<Entry>)
    ensures |es| == count
  {
    if count == 0 then [] else TaskEntries(count - 1) + [TaskEntry(count)]
  }

  /** The entries of a template asked for `numTasks` tasks; a count below one gives none. */
  function Entries(numTasks: int): seq<Entry> {
    if numTasks <= 0 then []
    else TaskEntries(numTasks) + (if numTasks > 2 then [FinalEntry(numTasks)] else [])
  }

  function TemplateText(numTasks: int, today: string): string {
    Header(today) + EntriesText(Entries(numTasks)) + Notes
  }

  lemma {:induction false} EntriesTextAppend(es: seq<Entry>, e: Entry)
    ensures EntriesText(es + [e]) == EntriesText(es) + EntryText(e)
  {
    if es != [] {
      assert (es + [e])[1..] == es[1..] + [e];
      EntriesTextAppend(es[1..], e);
    } else {
      assert es + [e] == [e];
    }
  }

  lemma Associative(a: string, b: string, c: string)
    ensures a + b + c == a + (b + c)
  {
  }

  /** Appending one more entry's text extends the rendered run by that entry. */
  lemma AppendEntry(head: string, done: seq<Entry>, e: Entry, before: string)
    requires before == head + EntriesText(done)
    ensures before + EntryText(e) == head + EntriesText(done + [e])
  {
    EntriesTextAppend(done, e);
    Associative(head, EntriesText(done), EntryText(e));
  }

  /** Appends the first `count` example tasks one by one, as the generator's loop does. */
  method AppendTaskEntries(head: string, count: nat) returns (text: string)
    ensures text == head + EntriesText(TaskEntries(count))
  {
    text := head;
    for i := 1 to count + 1
      invariant text == head + EntriesText(TaskEntries(i - 1))
    {
      var task := TaskEntry(i);
      ghost var before := text;
      text := text + EntryText(task);
      AppendEntry(head, TaskEntries(i - 1), task, before);
      assert TaskEntries(i - 1) + [task] == TaskEntries(i);
    }
  }

  /** Renders the whole template: header, example tasks, the final task when there are more than two, notes. */
  method GenerateTaskTemplate(numTasks: int, today: string) returns (template: string)
    ensures template == TemplateText(numTasks, today)
  {
    var count: nat := if numTasks > 0 then numTasks else 0;
    template := AppendTaskEntries(Header(today), count);
    ghost var done := TaskEntries(count);
    if numTasks > 2 {
      var final := FinalEntry(numTasks);
      ghost var before := template;
      template := template + EntryText(final);
      AppendEntry(Header(today), done, final, before);
      assert Entries(numTasks) == done + [final];
    } else {
      assert Entries(numTasks) == done;
    }
    template := template + Notes;
  }

  // ---------------------------------------------------------------------------
  // Reading the document back

  /** An entry the scanner reads back as written. */
  predicate Readable(e: Entry) {
    '[' !in e.lead && '[' !in e.body && e.id != [] && '"' !in e.id && '"' !in e.depends
  }

  /**
   * The blocks the scanner finds in a run of entries followed by `post`: each
   * body runs on to the next entry's marker, the last one to the end.
   */
  function EntryBlocks(es: seq<Entry>, post: string): (bs: seq<Block>)
    ensures |bs| == |es|
  {
    if es == [] then []
    else [Block(es[0].id, es[0].depends, es[0].body + (if |es| > 1 then es[1].lead else post))]
         + EntryBlocks(es[1..], post)
  }

  /** The k-th block carries the k-th entry's id and `depends` attribute. */
  lemma {:induction false} EntryBlocksAt(es: seq<Entry>, post: string)
    ensures forall k :: 0 <= k < |es| ==>
      EntryBlocks(es, post)[k].id == es[k].id && EntryBlocks(es, post)[k].depends == es[k].depends
  {
    if es != [] {
      EntryBlocksAt(es[1..], post);
      var bs := EntryBlocks(es, post);
      forall k | 0 <= k < |es| ensures bs[k].id == es[k].id && bs[k].depends == es[k].depends {
        if k > 0 {
          assert bs[k] == EntryBlocks(es[1..], post)[k - 1];
          assert es[k] == es[1..][k - 1];
        }
      }
    }
  }

  /** A marker satisfies the scanner's look-ahead for the next task. */
  lemma MarkerAhead(id: string, depends: string, rest: string)
    ensures NextTaskAhead(MarkerText(id, depends) + rest)
  {
    var t := "TASK id=\"" + (id + MarkerMiddle + depends + MarkerClose + rest);
    assert MarkerText(id, depends) + rest == "[" + t;
    assert ("[" + t)[1..] == t;
    StripStartNone(t, Whitespace);
    assert t[..4] == "TASK";
  }

  lemma RegroupEntry(a: string, b: string, c: string, d: string, e: string)
    ensures a + b + c + d + e == a + (b + (c + (d + e)))
  {
  }

  lemma RegroupNext(a: string, b: string, c: string, d: string, x: string)
    ensures a + b + c + (d + x) == a + (b + (c + d) + x)
  {
  }

  lemma RegroupLast(a: string, b: string, c: string, d: string)
    ensures a + b + c + d == a + (b + (c + d) + "")
  {
  }

  /** Entries whose markers and bodies are readable are scanned back entry by entry. */
  lemma {:induction false} ScanEntries(es: seq<Entry>, post: string)
    requires forall k :: 0 <= k < |es| ==> Readable(es[k])
    requires '[' !in post
    ensures TaskBlocks(EntriesText(es) + post) == EntryBlocks(es, post)
  {
    if es == [] {
      TaskBlocksSkip(post, "");
      assert EntriesText(es) + post == post + "";
      assert TaskBlocks("") == [];
    } else {
      var e, rest := es[0], es[1..];
      assert Readable(e);
      var m := MarkerText(e.id, e.depends);
      if rest == [] {
        var tail := e.body + post;
        assert EntriesText(es) == EntryText(e) + "";
        assert EntryText(e) + "" == EntryText(e);
        RegroupLast(e.lead, m, e.body, post);
        TaskBlocksSkip(e.lead, m + tail + "");
        TaskBlocksMarker(e.id, e.depends, tail, "");
      } else {
        var f := rest[0];
        assert Readable(f);
        var er := EntriesText(rest[1..]);
        var after := f.body + (er + post);
        var x := MarkerText(f.id, f.depends) + after;
        RegroupEntry(f.lead, MarkerText(f.id, f.depends), f.body, er, post);
        assert EntriesText(rest) + post == f.lead + x;
        Associative(EntryText(e), EntriesText(rest), post);
        RegroupNext(e.lead, m, e.body, f.lead, x);
        var y := m + (e.body + f.lead) + x;
        assert EntriesText(es) + post == e.lead + y;
        TaskBlocksSkip(e.lead, y);
        MarkerAhead(f.id, f.depends, after);
        TaskBlocksMarker(e.id, e.depends, e.body + f.lead, x);
        TaskBlocksSkip(f.lead, x);
        ScanEntries(rest, post);
      }
    }
  }

  // ---------------------------------------------------------------------------
  // Characters of the pieces

  lemma {:induction false} JoinAvoids(parts: seq<string>, sep: string, c: char)
    requires c !in sep && forall k :: 0 <= k < |parts| ==> c !in parts[k]
    ensures c !in Join(parts, sep)
  {
    if |parts| > 1 {
      JoinAvoids(parts[1..], sep, c);
    }
  }

  lemma DigitsAvoid(i: nat)
    ensures var n := NatToString(i);
      '[' !in n && '"' !in n && ',' !in n && forall k :: 0 <= k < |n| ==> n[k] !in Whitespace
  {
  }

  lemma TaskIdShape(i: nat)
    ensures var id := TaskId(i);
      id != [] && '"' !in id && ',' !in id && Trim(id) == id
  {
    var n := NatToString(i);
    var id := TaskId(i);
    DigitsAvoid(i);
    StripStartNone(id, Whitespace);
    assert id[|id| - 1] == n[|n| - 1];
  }

  // One lemma per piece keeps each check small.
  lemma Header1Avoids() ensures '[' !in Header1 {}
  lemma Header2Avoids() ensures '[' !in Header2 {}
  lemma Header3Avoids() ensures '[' !in Header3 {}
  lemma Header4Avoids() ensures '[' !in Header4 {}
  lemma Header5Avoids() ensures '[' !in Header5 {}
  lemma Header6Avoids() ensures '[' !in Header6 {}
  lemma Header7Avoids() ensures '[' !in Header7 {}
  lemma Header8Avoids() ensures '[' !in Header8 {}
  lemma Header9Avoids() ensures '[' !in Header9 {}
  lemma Header10Avoids() ensures '[' !in Header10 {}
  lemma Header11Avoids() ensures '[' !in Header11 {}
  lemma Task1Avoids() ensures '[' !in Task1 {}
  lemma Task2Avoids() ensures '[' !in Task2 {}
  lemma Task3Avoids() ensures '[' !in Task3 {}
  lemma Task4Avoids() ensures '[' !in Task4 {}
  lemma Task5Avoids() ensures '[' !in Task5 {}
  lemma Task6Avoids() ensures '[' !in Task6 {}
  lemma Task7Avoids() ensures '[' !in Task7 {}
  lemma Final1Avoids() ensures '[' !in Final1 {}
  lemma Final2Avoids() ensures '[' !in Final2 {}
  lemma Final3Avoids() ensures '[' !in Final3 {}
  lemma Final4Avoids() ensures '[' !in Final4 {}
  lemma Final5Avoids() ensures '[' !in Final5 {}
  lemma Final6Avoids() ensures '[' !in Final6 {}
  lemma Final7Avoids() ensures '[' !in Final7 {}
  lemma Notes1Avoids() ensures '[' !in Notes1 {}
  lemma Notes2Avoids() ensures '[' !in Notes2 {}
  lemma Notes3Avoids() ensures '[' !in Notes3 {}
  lemma Notes4Avoids() ensures '[' !in Notes4 {}
  lemma Notes5Avoids() ensures '[' !in Notes5 {}
  lemma Notes6Avoids() ensures '[' !in Notes6 {}
  lemma Notes7Avoids() ensures '[' !in Notes7 {}
  lemma Notes8Avoids() ensures '[' !in Notes8 {}
  lemma Notes9Avoids() ensures '[' !in Notes9 {}

  lemma FixedTextAvoids()
    ensures '[' !in Header1 + Header2 + Header3 && '[' !in HeaderAfterDate && '[' !in Notes
    ensures '[' !in Task1 && '[' !in Task2 && '[' !in TaskDescriptionTail && '[' !in Task7
    ensures '[' !in FinalBody
  {
    Header1Avoids();
    Header2Avoids();
    Header3Avoids();
    Header4Avoids();
    Header5Avoids();
    Header6Avoids();
    Header7Avoids();
    Header8Avoids();
    Header9Avoids();
    Header10Avoids();
    Header11Avoids();
    Task1Avoids();
    Task2Avoids();
    Task3Avoids();
    Task4Avoids();
    Task5Avoids();
    Task6Avoids();
    Task7Avoids();
    Final1Avoids();
    Final2Avoids();
    Final3Avoids();
    Final4Avoids();
    Final5Avoids();
    Final6Avoids();
    Final7Avoids();
    Notes1Avoids();
    Notes2Avoids();
    Notes3Avoids();
    Notes4Avoids();
    Notes5Avoids();
    Notes6Avoids();
    Notes7Avoids();
    Notes8Avoids();
    Notes9Avoids();
  }

  lemma TaskEntryReadable(i: nat)
    requires i >= 1
    ensures Readable(TaskEntry(i))
  {
    DigitsAvoid(i);
    FixedTextAvoids();
    TaskIdShape(i);
    if i > 1 {
      TaskIdShape(i - 1);
    }
  }

  lemma FinalEntryReadable(count: nat)
    requires count >= 1
    ensures Readable(FinalEntry(count))
  {
    DigitsAvoid(count + 1);
    FixedTextAvoids();
    var ids := TaskIds(count - 1);
    forall k | 0 <= k < |ids| ensures '"' !in ids[k] {
      TaskIdShape(k + 1);
    }
    JoinAvoids(ids, ", ", '"');
  }

  // ---------------------------------------------------------------------------
  // The template read back

  /** A date as `strftime("%Y-%m-%d")` writes it: digits and dashes. */
  predicate IsDate(today: string) {
    forall k :: 0 <= k < |today| ==> IsDigit(today[k]) || today[k] == '-'
  }

  lemma HeaderAvoids(today: string)
    requires IsDate(today)
    ensures '[' !in Header(today)
  {
    FixedTextAvoids();
    assert '[' !in today;
  }

  lemma {:induction false} TaskEntriesAt(count: nat)
    ensures forall k :: 0 <= k < count ==> TaskEntries(count)[k] == TaskEntry(k + 1)
  {
    if count > 0 {
      TaskEntriesAt(count - 1);
      var init := TaskEntries(count - 1);
      forall k | 0 <= k < count ensures TaskEntries(count)[k] == TaskEntry(k + 1) {
        if k < count - 1 {
          assert TaskEntries(count)[k] == init[k];
        } else {
          assert (init + [TaskEntry(count)])[k] == TaskEntry(count);
        }
      }
    }
  }

  lemma EntriesReadable(numTasks: int)
    ensures forall k :: 0 <= k < |Entries(numTasks)| ==> Readable(Entries(numTasks)[k])
  {
    if numTasks > 0 {
      var es := Entries(numTasks);
      var tasks := TaskEntries(numTasks);
      TaskEntriesAt(numTasks);
      forall k | 0 <= k < |es| ensures Readable(es[k]) {
        if k < numTasks {
          assert es[k] == tasks[k];
          TaskEntryReadable(k + 1);
        } else {
          assert es[k] == FinalEntry(numTasks);
          FinalEntryReadable(numTasks);
        }
      }
    }
  }

  /**
   * The scanner finds one task per entry of the template, in order, each with
   * the entry's id and the dependencies its `depends` attribute lists.
   */
  lemma TemplateSpecs(numTasks: int, today: string)
    requires IsDate(today)
    ensures var specs := DocumentSpecs(TemplateText(numTasks, today));
      var es := Entries(numTasks);
      && |specs| == |es|
      && forall k :: 0 <= k < |es| ==>
           specs[k].id == es[k].id && specs[k].dependsOn == Dependencies(es[k].depends)
  {
    var es := Entries(numTasks);
    HeaderAvoids(today);
    FixedTextAvoids();
    EntriesReadable(numTasks);
    Associative(Header(today), EntriesText(es), Notes);
    TaskBlocksSkip(Header(today), EntriesText(es) + Notes);
    ScanEntries(es, Notes);
    var blocks := EntryBlocks(es, Notes);
    assert TaskBlocks(TemplateText(numTasks, today)) == blocks;
    BlockSpecsAt(blocks);
    EntryBlocksAt(es, Notes);
    var specs := BlockSpecs(blocks);
    forall k | 0 <= k < |es|
      ensures specs[k].id == es[k].id && specs[k].dependsOn == Dependencies(es[k].depends)
    {
      assert specs[k] == ToSpec(blocks[k]);
    }
  }

  lemma NoDependencies()
    ensures Dependencies("") == []
  {
    assert Split("", ',') == [""];
  }

  lemma SingleDependency(i: nat)
    ensures Dependencies(TaskId(i)) == [TaskId(i)]
  {
    TaskIdShape(i);
    assert Join([TaskId(i)], ", ") == TaskId(i);
    DependenciesOfJoin([TaskId(i)]);
  }

  lemma PreviousDependencies(count: nat)
    requires count >= 1
    ensures Dependencies(Join(TaskIds(count), ", ")) == TaskIds(count)
  {
    var ids := TaskIds(count);
    forall k | 0 <= k < |ids| ensures ids[k] != "" && Trim(ids[k]) == ids[k] && ',' !in ids[k] {
      TaskIdShape(k + 1);
    }
    DependenciesOfJoin(ids);
  }

  lemma ExampleEntryFields(numTasks: int, k: nat)
    requires 0 <= k < numTasks
    ensures var e := Entries(numTasks)[k];
      e.id == TaskId(k + 1) && Dependencies(e.depends) == if k == 0 then [] else [TaskId(k)]
  {
    TaskEntriesAt(numTasks);
    assert Entries(numTasks)[k] == TaskEntries(numTasks)[k];
    if k == 0 {
      NoDependencies();
    } else {
      SingleDependency(k);
    }
  }

  lemma FinalEntryFields(numTasks: int)
    requires numTasks > 2
    ensures var e := Entries(numTasks)[numTasks];
      e.id == "final" && Dependencies(e.depends) == TaskIds(numTasks - 1)
  {
    assert Entries(numTasks)[numTasks] == FinalEntry(numTasks);
    PreviousDependencies(numTasks - 1);
  }

  /** The number of tasks in a template: the example tasks, plus `final` when there are more than two. */
  function TaskCount(numTasks: int): nat {
    if numTasks <= 0 then 0 else if numTasks > 2 then numTasks + 1 else numTasks
  }

  /**
   * A generated template parses into `task1`, ..., `task<n>`, where `task1`
   * depends on nothing and each later one on the one before, followed, when
   * `n > 2`, by `final`, which depends on `task1`, ..., `task<n-1>`.
   */
  lemma TemplateTasks(numTasks: int, today: string)
    requires IsDate(today)
    ensures var specs := DocumentSpecs(TemplateText(numTasks, today));
      && |specs| == TaskCount(numTasks)
      && (forall k :: 0 <= k < numTasks ==> specs[k].id == TaskId(k + 1))
      && (numTasks >= 1 ==> specs[0].dependsOn == [])
      && (forall k :: 1 <= k < numTasks ==> specs[k].dependsOn == [TaskId(k)])
      && (numTasks > 2 ==> specs[numTasks].id == "final" && specs[numTasks].dependsOn == TaskIds(numTasks - 1))
  {
    var specs := DocumentSpecs(TemplateText(numTasks, today));
    TemplateSpecs(numTasks, today);
    forall k | 0 <= k < numTasks
      ensures specs[k].id == TaskId(k + 1)
      ensures specs[k].dependsOn == if k == 0 then [] else [TaskId(k)]
    {
      ExampleEntryFields(numTasks, k);
    }
    if numTasks > 2 {
      FinalEntryFields(numTasks);
    }
  }

  // ---------------------------------------------------------------------------
  // The generated workflow can run to the end

  lemma TaskIdInjective(i: nat, j: nat)
    requires TaskId(i) == TaskId(j)
    ensures i == j
  {
    assert TaskId(i)[4..] == NatToString(i);
    assert TaskId(j)[4..] == NatToString(j);
    NatToStringInjective(i, j);
  }

  lemma TaskIdNotFinal(i: nat)
    ensures TaskId(i) != "final"
  {
    assert TaskId(i)[0] == 't';
  }

  /** The ids of a generated template's tasks, in document order. */
  function TemplateOrder(numTasks: int): (order: seq<Node>)
    ensures |order| == TaskCount(numTasks)
  {
    if numTasks <= 0 then [] else TaskIds(numTasks) + (if numTasks > 2 then ["final"] else [])
  }

  /** The template's ids are pairwise different: `task<i>` for the examples, then `final`. */
  lemma TemplateOrderDistinct(numTasks: int)
    ensures var order := TemplateOrder(numTasks);
      && Distinct(order)
      && (forall k :: 0 <= k < numTasks ==> order[k] == TaskId(k + 1))
      && (numTasks > 2 ==> order[numTasks] == "final")
  {
    var order := TemplateOrder(numTasks);
    if numTasks > 0 {
      var ids := TaskIds(numTasks);
      assert forall k :: 0 <= k < numTasks ==> order[k] == ids[k];
      forall i, j | 0 <= i < j < |order| ensures order[i] != order[j] {
        if j < numTasks {
          if order[i] == order[j] {
            TaskIdInjective(i + 1, j + 1);
          }
        } else {
          TaskIdNotFinal(i + 1);
        }
      }
    }
  }

  /** What the parsed template looks like, as a condition on its task list. */
  ghost predicate ChainShape(specs: seq<TaskSpec>, numTasks: int) {
    && |specs| == TaskCount(numTasks)
    && (forall k :: 0 <= k < numTasks ==> specs[k].id == TaskId(k + 1))
    && (numTasks >= 1 ==> specs[0].dependsOn == [])
    && (forall k :: 1 <= k < numTasks ==> specs[k].dependsOn == [TaskId(k)])
    && (numTasks > 2 ==> specs[numTasks].id == "final" && specs[numTasks].dependsOn == TaskIds(numTasks - 1))
  }

  /** Every dependency edge of such a task list goes forward in document order. */
  lemma ChainEdgeForward(specs: seq<TaskSpec>, numTasks: int, a: Node, b: Node)
    requires ChainShape(specs, numTasks)
    requires (a, b) in Built(specs).edges
    ensures exists i, j ::
      0 <= i < j < |specs| && TemplateOrder(numTasks)[i] == a && TemplateOrder(numTasks)[j] == b
  {
    var order := TemplateOrder(numTasks);
    TemplateOrderDistinct(numTasks);
    BuiltEdges(specs, a, b);
    var l :| 0 <= l < |specs| && specs[l].id == b && a in specs[l].dependsOn && a != "";
    if l == numTasks {
      var ids := TaskIds(numTasks - 1);
      var m :| 0 <= m < |ids| && ids[m] == a;
      assert a == TaskId(m + 1);
      assert order[m] == a && order[l] == b;
    } else {
      assert 1 <= l < numTasks;
      assert a == TaskId(l);
      assert order[l - 1] == a && order[l] == b;
    }
  }

  /** A task list shaped like the template's has no dependency cycle. */
  lemma ChainAcyclic(specs: seq<TaskSpec>, numTasks: int)
    requires ChainShape(specs, numTasks)
    ensures !HasCycle(Built(specs).edges)
  {
    var edges := Built(specs).edges;
    var order := TemplateOrder(numTasks);
    TemplateOrderDistinct(numTasks);
    forall i, j | 0 <= i < |order| && 0 <= j < |order| && (order[i], order[j]) in edges
      ensures i < j
    {
      ChainEdgeForward(specs, numTasks, order[i], order[j]);
      var i', j' :| 0 <= i' < j' < |specs| && order[i'] == order[i] && order[j'] == order[j];
      assert i' == i && j' == j;
    }
    forall e | e in edges ensures e.0 in order && e.1 in order {
      ChainEdgeForward(specs, numTasks, e.0, e.1);
    }
    TopologicalOrderAcyclic(edges, order);
  }

  /**
   * The generated workflow has no dependency cycle, so the executor can run
   * every one of its tasks.
   */
  lemma TemplateAcyclic(numTasks: int, today: string)
    requires IsDate(today)
    ensures !HasCycle(Built(DocumentSpecs(TemplateText(numTasks, today))).edges)
  {
    var specs := DocumentSpecs(TemplateText(numTasks, today));
    TemplateTasks(numTasks, today);
    assert ChainShape(specs, numTasks);
    ChainAcyclic(specs, numTasks);
  }
}
