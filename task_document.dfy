/**
 * The text format of a workflow document, read the way the parser's regular
 * expressions read it. Each regular expression is replaced by a scanner that
 * picks out exactly the same text:
 *
 *   task marker     [TASK id="([^"]+)" depends="([^"]*)"\](.*?)(?=\[\s*TASK|$)
 *   title           ###\s*(.*?)$                  (multi-line mode)
 *   heading removal ###\s*.*?\n                   (first match only)
 *   description cut ```                           (first split only)
 *   fenced block    ```(?:\w+)?\s*(.*?)```        (dot matches newline)
 *   metadata        ## Metadata\s*\n(.*?)(?=##)   (dot matches newline)
 */
module TaskDocument {
  import opened Text

  datatype Option<T> = None | Some(value: T)

  /** What the parser learns about one task; the completion flag lives elsewhere. */
  datatype TaskSpec = TaskSpec(
    id: string,
    title: string,
    description: string,
    dependsOn: seq<string>,
    commands: seq<string>)

  /** One task marker with its two attributes and the raw text that follows it. */
  datatype Block = Block(id: string, depends: string, body: string)

  // ---------------------------------------------------------------------------
  // Task markers

  const MarkerOpen: string := "[TASK id=\""
  const MarkerMiddle: string := "\" depends=\""
  const MarkerClose: string := "\"]"

  function MarkerText(id: string, depends: string): string {
    MarkerOpen + id + MarkerMiddle + depends + MarkerClose
  }

  /**
   * If `s` starts with a complete marker: its id, its `depends` attribute and
   * the text after it. The id is non-empty and neither attribute holds a `"`.
   */
  function Marker(s: string): (r: Option<(string, string, string)>)
    ensures r.Some? ==> var (id, depends, rest) := r.value;
      && s == MarkerText(id, depends) + rest
      && id != [] && '"' !in id && '"' !in depends
  {
    if !StartsWith(s, MarkerOpen) then None
    else
      var a := s[|MarkerOpen|..];
      var q := IndexOf(a, '"');
      if q == 0 || q == |a| then None
      else
        var b := a[q..];
        if !StartsWith(b, MarkerMiddle) then None
        else
          var c := b[|MarkerMiddle|..];
          var q2 := IndexOf(c, '"');
          if q2 == |c| then None
          else
            var d := c[q2..];
            if !StartsWith(d, MarkerClose) then None
            else
              assert s == MarkerOpen + a[..q] + MarkerMiddle + c[..q2] + MarkerClose + d[|MarkerClose|..] by {
                StartsWithSplit(s, MarkerOpen);
                assert a == a[..q] + b;
                StartsWithSplit(b, MarkerMiddle);
                assert c == c[..q2] + d;
                StartsWithSplit(d, MarkerClose);
                Concat5(MarkerOpen, a[..q], MarkerMiddle, c[..q2], MarkerClose, d[|MarkerClose|..]);
              }
              Some((a[..q], c[..q2], d[|MarkerClose|..]))
  }

  /** Every marker this module writes reads back as the same id and attribute. */
  lemma MarkerRoundTrip(id: string, depends: string, rest: string)
    requires id != [] && '"' !in id && '"' !in depends
    ensures Marker(MarkerText(id, depends) + rest) == Some((id, depends, rest))
  {
    var s := MarkerText(id, depends) + rest;
    var d := MarkerClose + rest;
    var c := depends + d;
    var b := MarkerMiddle + c;
    var a := id + b;
    Concat5(MarkerOpen, id, MarkerMiddle, depends, MarkerClose, rest);
    assert s == MarkerOpen + a;
    SliceConcat(MarkerOpen, a);
    IndexOfSkip(id, b, '"');
    assert IndexOf(b, '"') == 0;
    SliceConcat(id, b);
    SliceConcat(MarkerMiddle, c);
    IndexOfSkip(depends, d, '"');
    assert IndexOf(d, '"') == 0;
    SliceConcat(depends, d);
    SliceConcat(MarkerClose, rest);
  }

  /** The regular expression's look-ahead `\[\s*TASK` holds at the start of `s`. */
  predicate NextTaskAhead(s: string) {
    s != [] && s[0] == '[' && StartsWith(TrimStart(s[1..]), "TASK")
  }

  /** The lazy body of a marker: up to the next `[ TASK` look-ahead, or the end. */
  function BodyLength(s: string): (n: nat)
    ensures n <= |s|
    ensures n < |s| ==> NextTaskAhead(s[n..])
    ensures forall k :: 0 <= k < n ==> !NextTaskAhead(s[k..])
  {
    if s == [] || NextTaskAhead(s) then 0
    else
      var n := BodyLength(s[1..]);
      assert s[1..][n..] == s[1 + n..];
      assert forall k | 1 <= k < 1 + n :: !NextTaskAhead(s[k..]) by {
        forall k | 1 <= k < 1 + n ensures !NextTaskAhead(s[k..]) {
          assert s[k..] == s[1..][k - 1..];
        }
      }
      1 + n
  }

  /**
   * All task markers of a document, in order, each with its body, as
   * `re.finditer` yields them: after a match the search resumes where its body
   * ended; a `[` that does not open a complete marker is skipped. (Where the
   * pattern's `$` stops before a final newline, the body here keeps it; bodies
   * are only used after stripping, so nothing observable differs.)
   */
  function TaskBlocks(s: string): seq<Block>
    decreases |s|
  {
    if s == [] then []
    else match Marker(s)
      case None => TaskBlocks(s[1..])
      case Some((id, depends, rest)) =>
        var n := BodyLength(rest);
        [Block(id, depends, rest[..n])] + TaskBlocks(rest[n..])
  }

  /** Text without a `[` holds no marker and ends no body. */
  lemma {:induction false} TaskBlocksSkip(a: string, b: string)
    requires '[' !in a
    ensures TaskBlocks(a + b) == TaskBlocks(b)
  {
    if a != [] {
      assert (a + b)[0] == a[0];
      assert Marker(a + b).None?;
      assert (a + b)[1..] == a[1..] + b;
      assert '[' !in a[1..] by {
        assert forall x :: x in a[1..] ==> x in a;
      }
      TaskBlocksSkip(a[1..], b);
    } else {
      assert a + b == b;
    }
  }

  lemma {:induction false} BodyLengthSkip(a: string, b: string)
    requires '[' !in a
    ensures BodyLength(a + b) == |a| + BodyLength(b)
  {
    if a != [] {
      assert (a + b)[0] == a[0];
      assert (a + b)[1..] == a[1..] + b;
      assert '[' !in a[1..] by {
        assert forall x :: x in a[1..] ==> x in a;
      }
      BodyLengthSkip(a[1..], b);
    } else {
      assert a + b == b;
    }
  }

  /**
   * A marker followed by text without `[` and then by another marker (or by
   * nothing) yields one block whose body is exactly that text.
   */
  lemma TaskBlocksMarker(id: string, depends: string, body: string, next: string)
    requires id != [] && '"' !in id && '"' !in depends && '[' !in body
    requires next == [] || NextTaskAhead(next)
    ensures TaskBlocks(MarkerText(id, depends) + body + next)
         == [Block(id, depends, body)] + TaskBlocks(next)
  {
    var s := MarkerText(id, depends) + body + next;
    assert s == MarkerText(id, depends) + (body + next);
    MarkerRoundTrip(id, depends, body + next);
    BodyLengthSkip(body, next);
    assert BodyLength(next) == 0;
    SliceConcat(body, next);
    assert s != [];
  }

  // ---------------------------------------------------------------------------
  // Dependencies, command lines

  /** `[x.strip() for x in parts if x.strip()]`. */
  function TrimmedNonEmpty(parts: seq<string>): seq<string> {
    if parts == [] then []
    else (if Trim(parts[0]) != "" then [Trim(parts[0])] else []) + TrimmedNonEmpty(parts[1..])
  }

  /**
   * Each kept piece is a stripped, non-empty piece of the input, and every
   * piece that is non-empty once stripped is kept, in order.
   */
  lemma {:induction false} TrimmedNonEmptySpec(parts: seq<string>)
    ensures var r := TrimmedNonEmpty(parts);
      && (forall x :: x in r <==> exists p :: p in parts && Trim(p) == x && x != "")
      && (forall x :: x in r ==> Trim(x) == x)
      && |r| <= |parts|
  {
    if parts != [] {
      TrimmedNonEmptySpec(parts[1..]);
      StripIdempotent(parts[0], Whitespace);
      var r := TrimmedNonEmpty(parts);
      forall x | x in r ensures exists p :: p in parts && Trim(p) == x && x != "" {
        if x != Trim(parts[0]) || Trim(parts[0]) == "" {
          assert x in TrimmedNonEmpty(parts[1..]);
          var p :| p in parts[1..] && Trim(p) == x && x != "";
          assert p in parts;
        }
      }
      forall x | exists p :: p in parts && Trim(p) == x && x != "" ensures x in r {
        var p :| p in parts && Trim(p) == x && x != "";
        if p != parts[0] {
          assert p in parts[1..];
        }
      }
    }
  }

  /** A single piece is kept, stripped, exactly when it is not blank. */
  lemma TrimmedNonEmptyOne(p: string)
    ensures TrimmedNonEmpty([p]) == if Trim(p) != "" then [Trim(p)] else []
  {
    assert [p][1..] == [];
  }

  /** The pieces kept from a concatenation are those kept from each part, in input order. */
  lemma {:induction false} TrimmedNonEmptyAppend(a: seq<string>, b: seq<string>)
    ensures TrimmedNonEmpty(a + b) == TrimmedNonEmpty(a) + TrimmedNonEmpty(b)
  {
    if a == [] {
      assert a + b == b;
    } else {
      assert (a + b)[1..] == a[1..] + b;
      TrimmedNonEmptyAppend(a[1..], b);
    }
  }

  /** The `depends` attribute: comma-separated ids, each stripped, blanks dropped. */
  function Dependencies(depends: string): seq<string> {
    TrimmedNonEmpty(Split(depends, ','))
  }

  /** The commands of one fenced block: its stripped, non-blank lines. */
  function BlockCommands(block: string): seq<string> {
    TrimmedNonEmpty(Split(Trim(block), '\n'))
  }

  /**
   * Dependencies written as a `, `-joined list read back as that list, when the
   * ids are non-empty, stripped and free of commas.
   */
  lemma {:induction false} DependenciesOfJoin(ids: seq<string>)
    requires ids != []
    requires forall k :: 0 <= k < |ids| ==> ids[k] != "" && Trim(ids[k]) == ids[k] && ',' !in ids[k]
    ensures Dependencies(Join(ids, ", ")) == ids
  {
    var pieces := [ids[0]] + seq(|ids| - 1, k requires 0 <= k < |ids| - 1 => " " + ids[k + 1]);
    JoinWithSpace(ids);
    assert forall k :: 0 <= k < |pieces| ==> ',' !in pieces[k];
    SplitJoin(pieces, ',');
    TrimmedPieces(ids, pieces);
  }

  lemma {:induction false} JoinWithSpace(ids: seq<string>)
    requires ids != []
    ensures Join(ids, ", ") == Join([ids[0]] + seq(|ids| - 1, k requires 0 <= k < |ids| - 1 => " " + ids[k + 1]), ",")
  {
    if |ids| > 1 {
      var tail := ids[1..];
      JoinWithSpace(tail);
      var pt := [tail[0]] + seq(|tail| - 1, k requires 0 <= k < |tail| - 1 => " " + tail[k + 1]);
      var p := [ids[0]] + seq(|ids| - 1, k requires 0 <= k < |ids| - 1 => " " + ids[k + 1]);
      assert p[1..] == [" " + tail[0]] + pt[1..];
      JoinPrefixSpace(pt);
      assert Join(p[1..], ",") == " " + Join(pt, ",");
    }
  }

  lemma JoinPrefixSpace(parts: seq<string>)
    requires parts != []
    ensures Join([" " + parts[0]] + parts[1..], ",") == " " + Join(parts, ",")
  {
    var q := [" " + parts[0]] + parts[1..];
    assert q[1..] == parts[1..];
  }

  lemma {:induction false} TrimmedPieces(ids: seq<string>, pieces: seq<string>)
    requires ids != [] && |pieces| == |ids|
    requires forall k :: 0 <= k < |ids| ==> ids[k] != "" && Trim(ids[k]) == ids[k]
    requires pieces[0] == ids[0]
    requires forall k :: 1 <= k < |ids| ==> pieces[k] == " " + ids[k]
    ensures TrimmedNonEmpty(pieces) == ids
  {
    if |ids| > 1 {
      var p1 := pieces[1..];
      var i1 := ids[1..];
      assert " " + ids[1] == [' '] + ids[1];
      StripStartAppend([' '], ids[1], Whitespace);
      assert Trim(p1[0]) == i1[0];
      TrimmedPiecesSpaced(i1, p1);
    }
  }

  lemma {:induction false} TrimmedPiecesSpaced(ids: seq<string>, pieces: seq<string>)
    requires |pieces| == |ids|
    requires forall k :: 0 <= k < |ids| ==> ids[k] != "" && Trim(ids[k]) == ids[k]
    requires forall k :: 0 <= k < |ids| ==> pieces[k] == " " + ids[k]
    ensures TrimmedNonEmpty(pieces) == ids
  {
    if ids != [] {
      assert pieces[0] == [' '] + ids[0];
      StripStartAppend([' '], ids[0], Whitespace);
      TrimmedPiecesSpaced(ids[1..], pieces[1..]);
    }
  }

  // ---------------------------------------------------------------------------
  // Title and description

  /**
   * `###\s*(.*?)$` in multi-line mode, then stripped: the rest of the line on
   * which the first non-blank text after the first `###` stands. Without a
   * `###` the title is `"Task " + id`.
   */
  function Title(id: string, content: string): string {
    var p := Find(content, "###");
    if p == |content| then "Task " + id
    else
      var r := TrimStart(content[p + 3..]);
      Trim(r[..IndexOf(r, '\n')])
  }

  /**
   * `re.sub(r'###\s*.*?\n', '', content, 1)`: remove the first `###` together
   * with the rest of the line holding the first non-blank text after it and
   * its newline; when that text runs to the end without a newline, the greedy
   * `\s*` backs off to the last newline of the blank run instead; with no
   * newline at all after the `###`, nothing matches.
   */
  function DropHeading(content: string): string {
    var p := Find(content, "###");
    if p == |content| then content
    else
      var after := content[p + 3..];
      StripStartSpec(after, Whitespace);
      var w := |after| - |TrimStart(after)|;
      var rest := after[w..];
      var nl := IndexOf(rest, '\n');
      if nl < |rest| then content[..p] + rest[nl + 1..]
      else
        var last := LastIndexOf(after[..w], '\n');
        if last < 0 then content else content[..p] + after[last + 1..]
  }

  /** `re.split(r'```', text, 1)[0]`. */
  function BeforeFence(text: string): string {
    text[..Find(text, "```")]
  }

  /** The body without the heading line, cut before the first fence, stripped. */
  function Description(content: string): string {
    Trim(BeforeFence(DropHeading(content)))
  }

  /**
   * A heading line read as a title: the text after the first `###` and its
   * blanks, up to the end of that line, stripped.
   */
  lemma TitleOfHeading(id: string, pre: string, blanks: string, line: string, rest: string)
    requires '#' !in pre && AllIn(blanks, Whitespace) && '\n' !in line
    requires line != [] && !IsSpace(line[0])
    ensures Title(id, pre + "###" + blanks + line + "\n" + rest) == Trim(line)
  {
    var t := line + "\n" + rest;
    var x := blanks + t;
    assert pre + "###" + blanks + line + "\n" + rest == pre + "###" + x;
    FindAfter(pre, "###", x);
    assert t[0] == line[0];
    TrimStartBlanks(blanks, t);
    IndexOfLine(line, rest);
  }

  /**
   * The heading line is dropped with its newline, and the description is the
   * text between it and the first fence, stripped.
   */
  lemma DescriptionOfHeading(pre: string, blanks: string, line: string, text: string, rest: string)
    requires '#' !in pre && '`' !in pre && '`' !in text
    requires AllIn(blanks, Whitespace) && '\n' !in line
    requires line != [] && !IsSpace(line[0])
    ensures Description(pre + "###" + blanks + line + "\n" + text + "```" + rest) == Trim(pre + text)
  {
    var after := text + "```" + rest;
    var content := pre + "###" + (blanks + (line + "\n" + after));
    assert pre + "###" + blanks + line + "\n" + text + "```" + rest == content;
    DropHeadingLine(pre, blanks, line, after);
    assert pre + after == (pre + text) + "```" + rest;
    BeforeFenceOf(pre + text, rest);
  }

  lemma DropHeadingLine(pre: string, blanks: string, line: string, after: string)
    requires '#' !in pre && AllIn(blanks, Whitespace) && '\n' !in line
    requires line != [] && !IsSpace(line[0])
    ensures DropHeading(pre + "###" + (blanks + (line + "\n" + after))) == pre + after
  {
    var tail := line + "\n" + after;
    assert line + "\n" + after == tail;
    var x := blanks + tail;
    var content := pre + "###" + x;
    FindAfter(pre, "###", x);
    assert content[..|pre|] == pre;
    assert tail[0] == line[0];
    TrimStartBlanks(blanks, tail);
    assert x[|blanks|..] == tail;
    IndexOfLine(line, after);
  }

  lemma BeforeFenceOf(text: string, rest: string)
    requires '`' !in text
    ensures BeforeFence(text + "```" + rest) == text
  {
    FindAfter(text, "```", rest);
    assert (text + "```" + rest)[..|text|] == text;
  }

  // ---------------------------------------------------------------------------
  // Fenced command blocks

  /**
   * The bodies of the fenced blocks, as `re.finditer` returns them: an opening
   * fence, an optional word (the language tag), blanks, then everything up to
   * the next fence. Once an opening fence has no closing fence after it, no
   * later fence can match either, so the scan stops.
   */
  function FenceBodies(s: string): seq<string>
    decreases |s|, 0
  {
    var p := Find(s, "```");
    if p == |s| then [] else FenceBodyFrom(s[p + 3..])
  }

  /** The rest of the scan just after an opening fence. */
  function FenceBodyFrom(r: string): seq<string>
    decreases |r|, 1
  {
    var g := TrimStart(r[WordPrefix(r)..]);
    var c := Find(g, "```");
    if c == |g| then []
    else
      StripStartSpec(r[WordPrefix(r)..], Whitespace);
      [g[..c]] + FenceBodies(g[c + 3..])
  }

  /** The commands of a task body: the lines of its fenced blocks, in order. */
  function Commands(bodies: seq<string>): seq<string> {
    if bodies == [] then []
    else Commands(bodies[..|bodies| - 1]) + BlockCommands(bodies[|bodies| - 1])
  }

  /** One fenced block, after text with no backtick, reads as its inner text. */
  lemma FenceBodiesBlock(pre: string, tag: string, blanks: string, inner: string, rest: string)
    requires '`' !in pre && '`' !in inner
    requires forall k :: 0 <= k < |tag| ==> IsWordChar(tag[k])
    requires blanks != [] && AllIn(blanks, Whitespace)
    requires inner == [] || !IsSpace(inner[0])
    ensures FenceBodies(pre + "```" + tag + blanks + inner + "```" + rest)
         == [inner] + FenceBodies(rest)
  {
    var g := inner + "```" + rest;
    var r := tag + (blanks + g);
    assert pre + "```" + tag + blanks + inner + "```" + rest == pre + "```" + r;
    FindAfter(pre, "```", r);
    FenceBodyFromBlock(tag, blanks, inner, rest);
  }

  lemma FenceBodyFromBlock(tag: string, blanks: string, inner: string, rest: string)
    requires '`' !in inner
    requires forall k :: 0 <= k < |tag| ==> IsWordChar(tag[k])
    requires blanks != [] && AllIn(blanks, Whitespace)
    requires inner == [] || !IsSpace(inner[0])
    ensures FenceBodyFrom(tag + (blanks + (inner + "```" + rest))) == [inner] + FenceBodies(rest)
  {
    var g := inner + "```" + rest;
    var r := tag + (blanks + g);
    assert !IsWordChar(blanks[0]);
    WordPrefixSkip(tag, blanks + g);
    assert r[WordPrefix(r)..] == blanks + g;
    assert g == [] || !IsSpace(g[0]) by {
      if inner == [] {
        assert g[0] == '`';
      } else {
        assert g[0] == inner[0];
      }
    }
    TrimStartBlanks(blanks, g);
    assert TrimStart(r[WordPrefix(r)..]) == g;
    FindAfter(inner, "```", rest);
    FenceBodyFromFound(r, g, |inner|);
    assert g[..|inner|] == inner;
  }

  lemma FenceBodyFromFound(r: string, g: string, c: nat)
    requires g == TrimStart(r[WordPrefix(r)..]) && c == Find(g, "```") && c < |g|
    ensures FenceBodyFrom(r) == [g[..c]] + FenceBodies(g[c + 3..])
  {
  }

  lemma {:induction false} WordPrefixSkip(word: string, rest: string)
    requires forall k :: 0 <= k < |word| ==> IsWordChar(word[k])
    requires rest != [] && !IsWordChar(rest[0])
    ensures WordPrefix(word + rest) == |word|
  {
    if word != [] {
      assert (word + rest)[1..] == word[1..] + rest;
      WordPrefixSkip(word[1..], rest);
    } else {
      assert word + rest == rest;
    }
  }

  /** Text without a backtick holds no fenced block. */
  lemma FenceBodiesNone(s: string)
    requires '`' !in s
    ensures FenceBodies(s) == []
  {
    assert s == s + "";
    FindSkip(s, "", "```");
  }

  // ---------------------------------------------------------------------------
  // A whole task

  /** Title, description, dependencies and commands read off one block. */
  function ToSpec(b: Block): TaskSpec {
    var content := Trim(b.body);
    TaskSpec(b.id, Title(b.id, content), Description(content), Dependencies(b.depends),
             Commands(FenceBodies(content)))
  }

  /** The task of each block, in document order. */
  function BlockSpecs(blocks: seq<Block>): seq<TaskSpec> {
    if blocks == [] then []
    else BlockSpecs(blocks[..|blocks| - 1]) + [ToSpec(blocks[|blocks| - 1])]
  }

  /** One task per block, in order. */
  lemma {:induction false} BlockSpecsAt(blocks: seq<Block>)
    ensures |BlockSpecs(blocks)| == |blocks|
    ensures forall k :: 0 <= k < |blocks| ==> BlockSpecs(blocks)[k] == ToSpec(blocks[k])
  {
    if blocks != [] {
      var init := blocks[..|blocks| - 1];
      BlockSpecsAt(init);
      var last := ToSpec(blocks[|blocks| - 1]);
      assert BlockSpecs(blocks) == BlockSpecs(init) + [last];
      forall k | 0 <= k < |blocks| ensures BlockSpecs(blocks)[k] == ToSpec(blocks[k]) {
        if k < |init| {
          assert init[k] == blocks[k];
        } else {
          assert k == |BlockSpecs(init)|;
          assert (BlockSpecs(init) + [last])[k] == last;
        }
      }
    }
  }

  function DocumentSpecs(doc: string): seq<TaskSpec> {
    BlockSpecs(TaskBlocks(doc))
  }

  // ---------------------------------------------------------------------------
  // Metadata

  const MetadataHeading: string := "## Metadata"

  /**
   * `re.search` of `## Metadata\s*\n(.*?)(?=##)` (dot matching newline) with
   * `heading` for the literal part: the first position, from `i` on, where the
   * heading occurs and `AfterHeading` accepts what follows it.
   */
  function SectionFrom(s: string, heading: string, i: nat): Option<string>
    requires heading != []
    decreases |s| - i
  {
    if i >= |s| then None
    else if StartsWith(s[i..], heading) && AfterHeading(s[i + |heading|..]).Some? then
      AfterHeading(s[i + |heading|..])
    else SectionFrom(s, heading, i + 1)
  }

  /**
   * What the pattern makes of the text after the heading: `\s*\n` ends at the
   * last newline of the blank run (with none, the match fails here), and the
   * lazy `(.*?)(?=##)` runs up to the next `##` (with none, it fails too).
   */
  function AfterHeading(after: string): Option<string> {
    var nl := LastIndexOf(after[..BlankRun(after)], '\n');
    if nl < 0 then None
    else
      var body := after[nl + 1..];
      var e := Find(body, "##");
      if e == |body| then None else Some(body[..e])
  }

  /** The length of the blank run that starts `s`. */
  function BlankRun(s: string): (w: nat)
    ensures w <= |s|
  {
    if s != [] && IsSpace(s[0]) then 1 + BlankRun(s[1..]) else 0
  }

  /** The blank run is what `lstrip()` removes. */
  lemma {:induction false} BlankRunStrips(s: string)
    ensures s[BlankRun(s)..] == TrimStart(s)
  {
    if s != [] && IsSpace(s[0]) {
      BlankRunStrips(s[1..]);
      assert s[1..][BlankRun(s[1..])..] == s[BlankRun(s)..];
    }
  }

  /** The metadata section of a task document. */
  function MetadataSection(s: string): Option<string> {
    SectionFrom(s, MetadataHeading, 0)
  }

  /** The stripped, non-blank lines of the metadata section. */
  function MetadataLines(section: string): seq<string> {
    TrimmedNonEmpty(Split(section, '\n'))
  }

  /** The text handed to the YAML loader: those lines with every `- ` removed. */
  function YamlText(section: string): string {
    var lines := MetadataLines(section);
    Join(seq(|lines|, i requires 0 <= i < |lines| => Replace(lines[i], "- ", "")), "\n")
  }

  /** Positions where the heading does not occur are passed over. */
  lemma {:induction false} SectionFromSkip(s: string, heading: string, i: nat, j: nat)
    requires heading != [] && i <= j <= |s|
    requires forall k :: i <= k < j ==> !StartsWith(s[k..], heading)
    ensures SectionFrom(s, heading, i) == SectionFrom(s, heading, j)
    decreases j - i
  {
    if i < j {
      SectionFromSkip(s, heading, i + 1, j);
    }
  }

  /**
   * Blanks ending in a newline, then text: the section is that text up to the
   * next `##`, and there is none without one.
   */
  lemma AfterHeadingOf(blanks: string, t: string)
    requires AllIn(blanks, Whitespace) && blanks != [] && blanks[|blanks| - 1] == '\n'
    requires t == [] || !IsSpace(t[0])
    ensures var e := Find(t, "##");
      AfterHeading(blanks + t) == if e == |t| then None else Some(t[..e])
  {
    var after := blanks + t;
    assert BlankRun(after) == |blanks| by {
      TrimStartBlanks(blanks, t);
      BlankRunStrips(after);
    }
    assert after[..|blanks|] == blanks;
    assert LastIndexOf(blanks, '\n') == |blanks| - 1;
    assert after[|blanks|..] == t;
  }

  /** With no `#` after a heading, the pattern fails there. */
  lemma AfterHeadingNoEnd(after: string)
    requires '#' !in after
    ensures AfterHeading(after) == None
  {
    var nl := LastIndexOf(after[..BlankRun(after)], '\n');
    if nl >= 0 {
      var body := after[nl + 1..];
      assert '#' !in body by {
        assert forall i :: 0 <= i < |body| ==> body[i] == after[nl + 1 + i];
      }
      assert body == body + [];
      FindSkip(body, [], "##");
    }
  }

  /**
   * Blanks ending in a newline, then a body that neither starts with a blank
   * nor holds a `#`, then `##`: the section is that body.
   */
  lemma AfterHeadingBody(ws: string, body: string, rest: string)
    requires '#' !in body && AllIn(ws, Whitespace)
    requires body == [] || !IsSpace(body[0])
    ensures AfterHeading(ws + "\n" + body + "##" + rest) == Some(body)
  {
    var blanks := ws + "\n";
    var t := body + "##" + rest;
    assert ws + "\n" + body + "##" + rest == blanks + t;
    assert AllIn(blanks, Whitespace) by {
      assert forall i :: 0 <= i < |ws| ==> blanks[i] == ws[i];
    }
    assert t[0] == if body == [] then '#' else body[0];
    AfterHeadingOf(blanks, t);
    FindAfter(body, "##", rest);
    assert t[..|body|] == body;
  }

  /** No position before `pre`'s end starts the heading when `pre` lacks its first character. */
  lemma NoHeadingIn(pre: string, heading: string, tail: string)
    requires heading != [] && heading[0] !in pre
    ensures forall k :: 0 <= k < |pre| ==> !StartsWith((pre + tail)[k..], heading)
  {
    forall k | 0 <= k < |pre|
      ensures !StartsWith((pre + tail)[k..], heading)
    {
      if |pre + tail| - k >= |heading| {
        assert (pre + tail)[k..][..|heading|][0] == pre[k];
      }
    }
  }

  /**
   * A heading followed by blanks ending in a newline, then a body that neither
   * starts with a blank nor holds a `#`, then `##`: the section is that body.
   */
  lemma SectionFromOf(pre: string, heading: string, ws: string, body: string, rest: string)
    requires heading != [] && heading[0] !in pre && '#' !in body
    requires AllIn(ws, Whitespace)
    requires body == [] || !IsSpace(body[0])
    ensures SectionFrom(pre + heading + ws + "\n" + body + "##" + rest, heading, 0) == Some(body)
  {
    var tail := ws + "\n" + body + "##" + rest;
    var s := pre + (heading + tail);
    assert pre + heading + ws + "\n" + body + "##" + rest == s;
    NoHeadingIn(pre, heading, heading + tail);
    SectionFromSkip(s, heading, 0, |pre|);
    assert s[|pre|..] == heading + tail;
    assert StartsWith(heading + tail, heading) by {
      assert (heading + tail)[..|heading|] == heading;
    }
    assert s[|pre| + |heading|..] == tail;
    AfterHeadingBody(ws, body, rest);
  }

  /**
   * A heading with no `#` after it, and no occurrence of the heading past its
   * first character, gives no section.
   */
  lemma SectionFromMissing(pre: string, heading: string, tail: string)
    requires heading != [] && heading[0] !in pre && '#' !in tail
    requires forall k :: 0 < k <= |heading + tail| ==> !StartsWith((heading + tail)[k..], heading)
    ensures SectionFrom(pre + heading + tail, heading, 0) == None
  {
    var s := pre + (heading + tail);
    assert pre + heading + tail == s;
    NoHeadingIn(pre, heading, heading + tail);
    SectionFromSkip(s, heading, 0, |pre|);
    assert s[|pre| + |heading|..] == tail;
    AfterHeadingNoEnd(tail);
    assert SectionFrom(s, heading, |pre|) == SectionFrom(s, heading, |pre| + 1);
    forall k | |pre| + 1 <= k < |s|
      ensures !StartsWith(s[k..], heading)
    {
      assert s[k..] == (heading + tail)[k - |pre|..];
    }
    SectionFromSkip(s, heading, |pre| + 1, |s|);
  }

  /** The metadata heading occurs nowhere past its own first character. */
  lemma MetadataHeadingOnce(tail: string)
    requires '#' !in tail
    ensures forall k :: 0 < k <= |MetadataHeading + tail| ==>
      !StartsWith((MetadataHeading + tail)[k..], MetadataHeading)
  {
    var x := MetadataHeading + tail;
    forall k | 0 < k <= |x|
      ensures !StartsWith(x[k..], MetadataHeading)
    {
      if k == 1 {
        if |x| - 1 >= |MetadataHeading| {
          assert x[1..][..|MetadataHeading|][1] == ' ';
        }
      } else if k < |x| {
        assert x[k] == if k < |MetadataHeading| then MetadataHeading[k] else tail[k - |MetadataHeading|];
        if |x| - k >= |MetadataHeading| {
          assert x[k..][..|MetadataHeading|][0] == x[k] != '#';
        }
      }
    }
  }

  /**
   * A `## Metadata` heading followed by blanks ending in a newline, then a body
   * that neither starts with a blank nor holds a `#`, then `##`: the metadata
   * section is that body.
   */
  lemma MetadataSectionOf(pre: string, ws: string, body: string, rest: string)
    requires '#' !in pre && '#' !in body
    requires AllIn(ws, Whitespace)
    requires body == [] || !IsSpace(body[0])
    ensures MetadataSection(pre + MetadataHeading + ws + "\n" + body + "##" + rest) == Some(body)
  {
    assert MetadataHeading[0] == '#';
    SectionFromOf(pre, MetadataHeading, ws, body, rest);
  }

  /** A `## Metadata` heading with no `#` before or after it gives no section. */
  lemma MetadataSectionMissing(pre: string, tail: string)
    requires '#' !in pre && '#' !in tail
    ensures MetadataSection(pre + MetadataHeading + tail) == None
  {
    assert MetadataHeading[0] == '#';
    MetadataHeadingOnce(tail);
    SectionFromMissing(pre, MetadataHeading, tail);
  }

  /** A YAML list item `- key: value` reaches the loader as `key: value`. */
  lemma YamlTextItem(key: string, value: string)
    requires '-' !in key && '-' !in value && '\n' !in key && '\n' !in value
    requires value != [] && !IsSpace(value[|value| - 1])
    ensures YamlText("- " + key + ": " + value) == key + ": " + value
  {
    var item := key + ": " + value;
    var line := "- " + item;
    assert line == "- " + key + ": " + value;
    assert '\n' !in line;
    SplitNNone(line, '\n', |line|);
    assert line[|line| - 1] == value[|value| - 1];
    StripStartNone(line, Whitespace);
    assert Trim(line) == line;
    TrimmedNonEmptyOne(line);
    assert MetadataLines(line) == [line];
    ReplaceLeading("- ", item, "");
    assert '-' !in item;
    ReplaceAbsent(item, "- ", "");
  }

  /** The key and value of a `key: value` line, split at its first colon. */
  function KeyOf(line: string): string {
    Trim(line[..IndexOf(line, ':')])
  }

  function ValueOf(line: string): string
    requires ':' in line
  {
    Trim(line[IndexOf(line, ':') + 1..])
  }

  /**
   * The fallback metadata scan: every line holding a colon sets its key to its
   * value, later lines overriding earlier ones.
   */
  ghost function FallbackMetadata(lines: seq<string>): map<string, string> {
    if lines == [] then map[]
    else
      var m := FallbackMetadata(lines[..|lines| - 1]);
      var line := lines[|lines| - 1];
      if ':' in line then m[KeyOf(line) := ValueOf(line)] else m
  }

  /**
   * A key is present exactly when some line with a colon carries it, and its
   * value comes from the last such line.
   */
  lemma {:induction false} FallbackMetadataSpec(lines: seq<string>, key: string)
    ensures var m := FallbackMetadata(lines);
      && (key in m <==> exists i :: 0 <= i < |lines| && ':' in lines[i] && KeyOf(lines[i]) == key)
      && (key in m ==> exists i :: (0 <= i < |lines| && ':' in lines[i] && KeyOf(lines[i]) == key
            && m[key] == ValueOf(lines[i])
            && forall j :: i < j < |lines| ==> !(':' in lines[j] && KeyOf(lines[j]) == key)))
  {
    if lines != [] {
      var init := lines[..|lines| - 1];
      FallbackMetadataSpec(init, key);
      var line := lines[|lines| - 1];
      assert forall i :: 0 <= i < |init| ==> init[i] == lines[i];
      if ':' in line && KeyOf(line) == key {
      } else {
        if exists i :: 0 <= i < |lines| && ':' in lines[i] && KeyOf(lines[i]) == key {
          var i :| 0 <= i < |lines| && ':' in lines[i] && KeyOf(lines[i]) == key;
          assert i < |init|;
        }
      }
    }
  }

  /** What the loader made of the YAML text: a mapping, or a syntax error. */
  datatype YamlOutcome = Loaded(mapping: map<string, string>) | YamlError

  /** The document's metadata: the loader's mapping, or the fallback scan on error. */
  ghost function Metadata(doc: string, loadYaml: string -> YamlOutcome): map<string, string> {
    match MetadataSection(doc)
    case None => map[]
    case Some(section) =>
      match loadYaml(YamlText(section))
      case Loaded(m) => m
      case YamlError => FallbackMetadata(MetadataLines(section))
  }
}
