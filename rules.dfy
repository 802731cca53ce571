/**
 * The decision-tree rule translator: turns a textual dump of a fitted tree
 * (one node per line, indented by "|   " per level, each node introduced by
 * "|--- ") into English rules, one per leaf, each the chain of conditions on
 * the root-to-leaf path.
 */
module Rules {
  import opened Results
  import opened Text

  /** One level of indentation in the dump. */
  const Indent := "|   "
  /** The marker that introduces a node. */
  const Branch := "|--- "
  /** The opening of every leaf sentence. */
  const Then := "THEN \U{2192} "
  /** The separator placed between the steps of a translated rule. */
  const Step := " \U{2192} "

  /** Python's IndexError, raised when a split line has too few fields. */
  datatype RuleError = IndexError

  function Min(a: int, b: int): int { if a <= b then a else b }

  /** The node text of a dump line: stripped, with every marker and indent removed. */
  function Content(line: string): (r: string)
    ensures |r| <= |line|
  {
    var stripped := Strip(line);
    ReplaceLength(stripped, Branch, []);
    ReplaceLength(Replace(stripped, Branch, []), Indent, []);
    Replace(Replace(stripped, Branch, []), Indent, [])
  }

  /** The sentence for a leaf: the positive cls `lbl` when the cls is "1", its negation otherwise. */
  function Conclusion(cls: string, lbl: string): (r: string)
    ensures Then <= r && "THEN" <= r
    ensures r == Then + lbl <==> cls == "1"
  {
    Then + (if cls == "1" then lbl else "Not " + lbl)
  }

  /**
   * The condition of a split. A threshold of 0.50 marks a one-hot (0/1)
   * feature, so `<=` reads as "No" and `>` as "Yes".
   */
  function Condition(feature: string, op: string, value: string): (r: string)
    ensures |feature| <= |r|
    ensures forall i :: 0 <= i < |feature| ==> r[i] == (if feature[i] == '_' then ' ' else feature[i])
    ensures value == "0.50" ==> EndsWith(r, if op == "<=" then " is **No**" else " is **Yes**")
    ensures value != "0.50" ==> EndsWith(r, (if op == "<=" then " \U{2264} " else " > ") + value)
    ensures |r| == |feature| + (if value == "0.50" then (if op == "<=" then 10 else 11) else 3 + |value|)
  {
    var name := Replace(feature, "_", " ");
    ReplaceChar(feature, '_', ' ');
    if op == "<=" then
      (if value == "0.50" then name + " is **No**" else name + " \U{2264} " + value)
    else
      (if value == "0.50" then name + " is **Yes**" else name + " > " + value)
  }

  /** Too few space-separated fields for `parts[1]`, `parts[2]` and, when `parts[2]` is empty, `parts[3]`. */
  predicate FieldsMissing(parts: seq<string>) {
    |parts| < 3 || (parts[2] == [] && |parts| < 4)
  }

  /**
   * One dump line to (depth, sentence). The depth is the number of indents,
   * a line whose content holds "class:" is a leaf, any other line is a split
   * "feature op value" (a doubled space after the operator leaves an empty
   * third field, in which case the value is the fourth).
   */
  function ParseRuleLine(line: string, lbl: string): (r: Result<(nat, string), RuleError>)
    ensures r.Ok? ==> r.value.0 == Count(line, Indent)
    ensures r.Ok? ==> ("THEN" <= r.value.1 <==> Contains(Content(line), "class:"))
    ensures r.Err? <==> !Contains(Content(line), "class:") && FieldsMissing(Split(Content(line), ' '))
  {
    var depth := Count(line, Indent);
    var content := Content(line);
    if Contains(content, "class:") then
      var parts := Split(content, ':');
      Ok((depth, Conclusion(Strip(parts[|parts| - 1]), lbl)))
    else
      var parts := Split(content, ' ');
      if FieldsMissing(parts) then Err(IndexError)
      else
        var value := if parts[2] != [] then parts[2] else parts[3];
        var sentence := "IF " + Condition(parts[0], parts[1], value);
        assert sentence[1] == 'F';
        Ok((depth, sentence))
  }

  // ---------------------------------------------------------------------
  // The dump format the parser reads, and what it makes of it.
  // ---------------------------------------------------------------------

  /** A dump line: `depth` indents, the node marker, then the node text. */
  function DumpLine(depth: nat, body: string): string {
    Repeat(Indent, depth) + Branch + body
  }

  /** The text of a split node: feature, operator and threshold, with one extra space after `>`. */
  function SplitText(feature: string, op: string, value: string): string {
    if op == ">" then feature + " " + op + " " + " " + value else feature + " " + op + " " + value
  }

  /** Text that the dump uses as a single field: no space, pipe or colon. */
  predicate Plain(s: string) {
    ' ' !in s && '|' !in s && ':' !in s
  }

  /** Replacing the node marker leaves the leading indents alone. */
  lemma {:induction false} BranchReplaceSkipsIndents(depth: nat, s: string)
    ensures Replace(Repeat(Indent, depth) + s, Branch, []) == Repeat(Indent, depth) + Replace(s, Branch, [])
  {
    if depth > 0 {
      var rest := Repeat(Indent, depth - 1) + s;
      calc {
        Replace(Repeat(Indent, depth) + s, Branch, []);
        { RepeatFirst(Indent, depth, s); }
        Replace(Indent + rest, Branch, []);
        { IndentReplaceSkipped(rest); }
        Indent + Replace(rest, Branch, []);
        { BranchReplaceSkipsIndents(depth - 1, s); }
        Indent + (Repeat(Indent, depth - 1) + Replace(s, Branch, []));
        { RepeatFirst(Indent, depth, Replace(s, Branch, [])); }
        Repeat(Indent, depth) + Replace(s, Branch, []);
      }
    } else {
      assert Repeat(Indent, depth) + s == s;
    }
  }

  /** One indent in front of a string is copied through the marker replacement. */
  lemma IndentReplaceSkipped(rest: string)
    ensures Replace(Indent + rest, Branch, []) == Indent + Replace(rest, Branch, [])
  {
    var s3 := [' '] + rest;
    var s2 := [' '] + s3;
    var s1 := [' '] + s2;
    assert Indent + rest == ['|'] + s1;
    assert (['|'] + s1)[1] == ' ';
    ReplaceSkipsChar('|', s1, Branch, []);
    ReplaceSkipsChar(' ', s2, Branch, []);
    ReplaceSkipsChar(' ', s3, Branch, []);
    ReplaceSkipsChar(' ', rest, Branch, []);
    assert Indent + Replace(rest, Branch, []) == ['|'] + ([' '] + ([' '] + ([' '] + Replace(rest, Branch, []))));
  }

  /** A dump line starts with a pipe, so strip leaves it alone when its node text ends in a non-space. */
  lemma DumpLineStripped(depth: nat, body: string)
    requires body != [] && !IsSpace(body[|body| - 1])
    ensures Strip(DumpLine(depth, body)) == DumpLine(depth, body)
  {
    var line := DumpLine(depth, body);
    if depth > 0 {
      assert Repeat(Indent, depth) == Indent + Repeat(Indent, depth - 1);
      assert line[0] == Indent[0];
    } else {
      assert line == Branch + body;
      assert line[0] == Branch[0];
    }
    assert line[|line| - 1] == body[|body| - 1];
    StripUnchanged(line);
  }

  /** Only the leading indents of a dump line are counted as depth. */
  lemma DumpLineDepth(depth: nat, body: string)
    requires '|' !in body
    ensures Count(DumpLine(depth, body), Indent) == depth
  {
    var tail := Branch + body;
    assert DumpLine(depth, body) == Repeat(Indent, depth) + tail;
    CountRepeat(Indent, depth, tail);
    assert tail[1] == '-';
    assert !(Indent <= tail);
    assert tail[1..] == "--- " + body;
    CountWithoutFirstChar(tail[1..], Indent);
  }

  /** Removing the marker and the indents from a dump line leaves its node text. */
  lemma DumpLineBody(depth: nat, body: string)
    requires '|' !in body
    ensures Replace(Replace(DumpLine(depth, body), Branch, []), Indent, []) == body
  {
    var tail := Branch + body;
    assert DumpLine(depth, body) == Repeat(Indent, depth) + tail;
    BranchReplaceSkipsIndents(depth, tail);
    assert Branch <= tail;
    assert tail[|Branch|..] == body;
    ReplaceWithoutFirstChar(body, Branch, []);
    assert Replace(tail, Branch, []) == body;
    ReplaceRepeat(Indent, depth, body);
    ReplaceWithoutFirstChar(body, Indent, []);
  }

  /** A dump line's depth is its indent count and its content is its node text. */
  lemma DumpLineContent(depth: nat, body: string)
    requires '|' !in body && body != [] && !IsSpace(body[|body| - 1])
    ensures Count(DumpLine(depth, body), Indent) == depth
    ensures Content(DumpLine(depth, body)) == body
  {
    DumpLineStripped(depth, body);
    DumpLineDepth(depth, body);
    DumpLineBody(depth, body);
  }

  /** The fields of a split node's text, as `split(' ')` sees them. */
  function SplitFields(feature: string, op: string, value: string): seq<string> {
    if op == ">" then [feature, op, [], value] else [feature, op, value]
  }

  /** A split node's text is its fields joined by single spaces. */
  lemma SplitTextJoinsFields(feature: string, op: string, value: string)
    ensures Join(SplitFields(feature, op, value), " ") == SplitText(feature, op, value)
  {
    var parts := SplitFields(feature, op, value);
    var n := |parts|;
    assert parts[n - 1..] == [value];
    if op == ">" {
      assert parts[2..] == [[], value];
      assert Join(parts[2..], " ") == [] + " " + value;
      assert parts[1..] == [op, [], value];
    } else {
      assert parts[2..] == [value];
      assert parts[1..] == [op, value];
      assert Join(parts[1..], " ") == op + " " + value;
    }
  }

  /** A split node's text is no leaf, and splits on spaces into its fields. */
  lemma SplitTextFields(feature: string, op: string, value: string)
    requires op == "<=" || op == ">"
    requires Plain(feature) && Plain(value)
    ensures !Contains(SplitText(feature, op, value), "class:")
    ensures Split(SplitText(feature, op, value), ' ') == SplitFields(feature, op, value)
  {
    NotContainsMissingChar(SplitText(feature, op, value), "class:", ':');
    SplitTextJoinsFields(feature, op, value);
    var parts := SplitFields(feature, op, value);
    assert ' ' !in op by {
      if op == ">" { assert op == ['>']; } else { assert op == ['<', '=']; }
    }
    assert forall k :: 0 <= k < |parts| ==> ' ' !in parts[k];
    SplitJoin(parts, ' ');
  }

  /** A line whose content is a split node's text parses to the condition on its feature. */
  lemma ParseSplitContent(line: string, depth: nat, feature: string, op: string, value: string, lbl: string)
    requires op == "<=" || op == ">"
    requires Plain(feature) && Plain(value) && value != []
    requires Count(line, Indent) == depth && Content(line) == SplitText(feature, op, value)
    ensures ParseRuleLine(line, lbl) == Ok((depth, "IF " + Condition(feature, op, value)))
  {
    SplitTextFields(feature, op, value);
  }

  /** A split line parses to its depth and the English condition on its feature. */
  lemma ParseSplitLine(depth: nat, feature: string, op: string, value: string, lbl: string)
    requires op == "<=" || op == ">"
    requires Plain(feature) && Plain(value)
    requires value != [] && !IsSpace(value[|value| - 1])
    ensures ParseRuleLine(DumpLine(depth, SplitText(feature, op, value)), lbl)
         == Ok((depth, "IF " + Condition(feature, op, value)))
  {
    var body := SplitText(feature, op, value);
    assert body[|body| - 1] == value[|value| - 1];
    DumpLineContent(depth, body);
    ParseSplitContent(DumpLine(depth, body), depth, feature, op, value, lbl);
  }

  /** A leaf's text is recognised as a leaf. */
  lemma LeafTextTagged(cls: string)
    ensures Contains("class: " + cls, "class:")
  {
    assert "class:" <= "class: " + cls;
  }

  /** A leaf's text splits on colons into the tag and the spaced class. */
  lemma LeafTextFields(cls: string)
    requires ':' !in cls
    ensures Split("class: " + cls, ':') == ["class", " " + cls]
  {
    LeafTextJoinsFields(cls);
    SplitJoin(["class", " " + cls], ':');
  }

  /** A leaf's text is the tag and the spaced class joined by a colon. */
  lemma LeafTextJoinsFields(cls: string)
    ensures Join(["class", " " + cls], ":") == "class: " + cls
  {
    assert ["class", " " + cls][1..] == [" " + cls];
    assert "class" + ":" + (" " + cls) == "class: " + cls;
  }

  /** A line whose content is a leaf's text parses to the conclusion for its class. */
  lemma ParseLeafContent(line: string, depth: nat, cls: string, lbl: string)
    requires ':' !in cls && cls != [] && !IsSpace(cls[0]) && !IsSpace(cls[|cls| - 1])
    requires Count(line, Indent) == depth && Content(line) == "class: " + cls
    ensures ParseRuleLine(line, lbl) == Ok((depth, Conclusion(cls, lbl)))
  {
    LeafTextTagged(cls);
    LeafTextFields(cls);
    StripLeadingSpace(cls);
  }

  /** A leaf line parses to its depth and the conclusion for its class label. */
  lemma ParseLeafLine(depth: nat, cls: string, lbl: string)
    requires ':' !in cls && '|' !in cls
    requires cls != [] && !IsSpace(cls[0]) && !IsSpace(cls[|cls| - 1])
    ensures ParseRuleLine(DumpLine(depth, "class: " + cls), lbl)
         == Ok((depth, Then + (if cls == "1" then lbl else "Not " + lbl)))
  {
    var body := "class: " + cls;
    assert body[|body| - 1] == cls[|cls| - 1];
    DumpLineContent(depth, body);
    ParseLeafContent(DumpLine(depth, body), depth, cls, lbl);
  }

  // ---------------------------------------------------------------------
  // Walking the dump: the root-to-node path and the collected rules.
  // ---------------------------------------------------------------------

  /** The walk's state: the sentences on the path to the current node, and the rules emitted so far. */
  datatype Walker = Walker(path: seq<string>, translated: seq<string>)

  /**
   * One line of the walk. A blank line changes nothing; otherwise the path is
   * cut back to the line's depth and its sentence pushed, and a leaf emits
   * the whole path as one rule.
   */
  function Visit(w: Walker, line: string, lbl: string): (r: Result<Walker, RuleError>)
    ensures r.Ok? ==> w.translated <= r.value.translated && |r.value.translated| <= |w.translated| + 1
    ensures r.Ok? ==> |r.value.path| <= |w.path| + 1
  {
    if Strip(line) == [] then Ok(w)
    else
      match ParseRuleLine(line, lbl)
      case Err(e) => Err(e)
      case Ok((depth, sentence)) =>
        var path := w.path[..Min(depth, |w.path|)] + [sentence];
        Ok(Walker(path, if "THEN" <= sentence then w.translated + [Join(path, Step)] else w.translated))
  }

  /**
   * The path is a stack: a visit skips blank lines, fails exactly when the
   * line does not parse, and otherwise keeps a prefix of the old path no
   * longer than the line's depth and pushes the line's sentence on it; a
   * leaf adds exactly one rule, the joined path, and any other line none.
   */
  lemma VisitKeepsPathStack(w: Walker, line: string, lbl: string)
    ensures AllSpace(line) ==> Visit(w, line, lbl) == Ok(w)
    ensures !AllSpace(line) ==> (Visit(w, line, lbl).Ok? <==> ParseRuleLine(line, lbl).Ok?)
    ensures !AllSpace(line) && Visit(w, line, lbl).Ok? ==>
      var (depth, sentence) := ParseRuleLine(line, lbl).value;
      var p := Visit(w, line, lbl).value.path;
      && |p| == Min(depth, |w.path|) + 1
      && p[..|p| - 1] <= w.path
      && p[|p| - 1] == sentence
      && Visit(w, line, lbl).value.translated
         == w.translated + (if "THEN" <= sentence then [Join(p, Step)] else [])
  {
  }

  /** The walk over a sequence of lines, from an empty path; the first unparsable line aborts it. */
  function Walk(lines: seq<string>, lbl: string): (r: Result<Walker, RuleError>)
    ensures r.Ok? ==> |r.value.translated| <= |lines| && |r.value.path| <= |lines|
    decreases |lines|
  {
    if lines == [] then Ok(Walker([], []))
    else
      match Walk(lines[..|lines| - 1], lbl)
      case Err(e) => Err(e)
      case Ok(w) => Visit(w, lines[|lines| - 1], lbl)
  }

  /** What `explain_tree` returns besides the leaf ids: the rules of a whole dump. */
  function Translation(rules: string, lbl: string): (r: Result<seq<string>, RuleError>)
    ensures r.Ok? ==> |r.value| <= |Split(rules, '\n')|
  {
    match Walk(Split(rules, '\n'), lbl)
    case Err(e) => Err(e)
    case Ok(w) => Ok(w.translated)
  }

  /** The (depth, sentence) of every non-blank line, in order; the first unparsable line aborts. */
  function Parsed(lines: seq<string>, lbl: string): Result<seq<(nat, string)>, RuleError>
    decreases |lines|
  {
    if lines == [] then Ok([])
    else
      var last := lines[|lines| - 1];
      match Parsed(lines[..|lines| - 1], lbl)
      case Err(e) => Err(e)
      case Ok(steps) =>
        if AllSpace(last) then Ok(steps)
        else
          match ParseRuleLine(last, lbl)
          case Err(e) => Err(e)
          case Ok(step) => Ok(steps + [step])
  }

  /** The leaf sentences among parsed lines, in order. */
  function Leaves(steps: seq<(nat, string)>): seq<string>
    decreases |steps|
  {
    if steps == [] then []
    else
      var sentence := steps[|steps| - 1].1;
      Leaves(steps[..|steps| - 1]) + (if "THEN" <= sentence then [sentence] else [])
  }

  /**
   * The walk succeeds exactly when every non-blank line parses, and then it
   * emits one rule per leaf line, in input order, each ending with that
   * leaf's sentence.
   */
  lemma {:induction false} WalkEmitsOneRulePerLeaf(lines: seq<string>, lbl: string)
    ensures Walk(lines, lbl).Ok? <==> Parsed(lines, lbl).Ok?
    ensures Walk(lines, lbl).Ok? ==>
      var rules := Walk(lines, lbl).value.translated;
      var leaves := Leaves(Parsed(lines, lbl).value);
      && |rules| == |leaves|
      && forall k :: 0 <= k < |rules| ==> EndsWith(rules[k], leaves[k])
    decreases |lines|
  {
    if lines != [] {
      var init := lines[..|lines| - 1];
      var last := lines[|lines| - 1];
      WalkEmitsOneRulePerLeaf(init, lbl);
      if Walk(init, lbl).Ok? && !AllSpace(last) && ParseRuleLine(last, lbl).Ok? {
        var w := Walk(init, lbl).value;
        var steps := Parsed(init, lbl).value;
        var step := ParseRuleLine(last, lbl).value;
        VisitKeepsPathStack(w, last, lbl);
        var w' := Visit(w, last, lbl).value;
        assert Parsed(lines, lbl) == Ok(steps + [step]);
        assert (steps + [step])[..|steps|] == steps;
        assert Leaves(steps + [step]) == Leaves(steps) + (if "THEN" <= step.1 then [step.1] else []);
        RulesEndWithLeaves(w.translated, Leaves(steps), w'.path, "THEN" <= step.1);
      }
    }
  }

  /** Adding a leaf's joined path and its sentence keeps every rule ending with its leaf. */
  lemma RulesEndWithLeaves(rules: seq<string>, leaves: seq<string>, path: seq<string>, leaf: bool)
    requires |rules| == |leaves| && forall k :: 0 <= k < |rules| ==> EndsWith(rules[k], leaves[k])
    requires path != []
    ensures var rules' := rules + (if leaf then [Join(path, Step)] else []);
            var leaves' := leaves + (if leaf then [path[|path| - 1]] else []);
            |rules'| == |leaves'| && forall k :: 0 <= k < |rules'| ==> EndsWith(rules'[k], leaves'[k])
  {
    if leaf {
      JoinEndsWithLast(path, Step);
    }
  }

  /** The walk over one more line is one more visit. */
  lemma WalkStep(lines: seq<string>, i: nat, lbl: string)
    requires i < |lines|
    ensures Walk(lines[..i], lbl).Err? ==> Walk(lines[..i + 1], lbl).Err?
    ensures Walk(lines[..i], lbl).Ok? ==> Walk(lines[..i + 1], lbl) == Visit(Walk(lines[..i], lbl).value, lines[i], lbl)
  {
    assert lines[..i + 1][..i] == lines[..i];
  }

  /** An aborted walk stays aborted whatever lines follow. */
  lemma {:induction false} WalkAbortIsFinal(lines: seq<string>, i: nat, lbl: string)
    requires i <= |lines| && Walk(lines[..i], lbl).Err?
    ensures Walk(lines, lbl).Err?
    decreases |lines| - i
  {
    if i < |lines| {
      assert lines[..i + 1][..i] == lines[..i];
      WalkAbortIsFinal(lines, i + 1, lbl);
    } else {
      assert lines[..i] == lines;
    }
  }

  /**
   * The body of `explain_tree`'s loop for one line: skip it when blank,
   * otherwise parse it, cut the path back to its depth, push its sentence,
   * and emit the joined path when it is a leaf.
   */
  method VisitLine(path: seq<string>, translated: seq<string>, line: string, lbl: string)
    returns (ok: bool, path': seq<string>, translated': seq<string>)
    ensures ok <==> Visit(Walker(path, translated), line, lbl).Ok?
    ensures ok ==> Visit(Walker(path, translated), line, lbl) == Ok(Walker(path', translated'))
  {
    path', translated' := path, translated;
    ok := true;
    if Strip(line) != [] {
      var parsed := ParseRuleLine(line, lbl);
      if parsed.Err? {
        return false, path, translated;
      }
      var (depth, sentence) := parsed.value;
      path' := path[..Min(depth, |path|)] + [sentence];
      if "THEN" <= sentence {
        translated' := translated + [Join(path', Step)];
      }
    }
  }

  /**
   * `explain_tree` without the classifier call: walks the dump line by line,
   * keeping the current root-to-node path and collecting one rule per leaf.
   */
  method ExplainTree(rules: string, lbl: string) returns (r: Result<seq<string>, RuleError>)
    ensures r == Translation(rules, lbl)
  {
    var lines := Split(rules, '\n');
    var translated: seq<string> := [];
    var path: seq<string> := [];
    var i := 0;
    while i < |lines|
      invariant 0 <= i <= |lines|
      invariant Walk(lines[..i], lbl) == Ok(Walker(path, translated))
    {
      var ok;
      ok, path, translated := WalkLine(lines, i, path, translated, lbl);
      if !ok {
        WalkAbortIsFinal(lines, i + 1, lbl);
        TranslationAborted(rules, lbl);
        return Err(IndexError);
      }
      i := i + 1;
    }
    assert lines[..i] == lines;
    r := Ok(translated);
  }

  /** An aborted walk of the dump's lines is the translation's IndexError. */
  lemma TranslationAborted(rules: string, lbl: string)
    requires Walk(Split(rules, '\n'), lbl).Err?
    ensures Translation(rules, lbl) == Err(IndexError)
  {
    var e := Walk(Split(rules, '\n'), lbl).error;
    assert e.IndexError?;
  }

  /** Line `i` of the walk, as the loop of `ExplainTree` runs it. */
  method WalkLine(lines: seq<string>, i: nat, path: seq<string>, translated: seq<string>, lbl: string)
    returns (ok: bool, path': seq<string>, translated': seq<string>)
    requires i < |lines| && Walk(lines[..i], lbl) == Ok(Walker(path, translated))
    ensures ok ==> Walk(lines[..i + 1], lbl) == Ok(Walker(path', translated'))
    ensures !ok ==> Walk(lines[..i + 1], lbl).Err?
  {
    WalkStep(lines, i, lbl);
    ok, path', translated' := VisitLine(path, translated, lines[i], lbl);
  }
}
