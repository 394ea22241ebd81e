/** Rewriting the patches of a unified diff (`RepackageNMS.Remapper`).  Each
    line is classified by its first characters: a file header has every
    rule's old source path replaced by its new one, an added line has every
    rule's old class name replaced by its new one, and every other line is
    kept as it is.  The rules are applied one after the other, in order, each
    to the text the previous ones left. */
module Remapping {
  import opened KotlinText
  import opened Mappings
  import opened MappingParser

  const DIFF_HEADER: string := "diff --git "
  const NEW_FILE_HEADER: string := "+++ "
  const OLD_FILE_HEADER: string := "--- "
  const ADDED_MARKER: string := "+"

  /** How a line of a patch is treated. */
  datatype LineKind = Header | Added | Kept

  function Classify(line: string): LineKind {
    if DIFF_HEADER <= line || NEW_FILE_HEADER <= line || OLD_FILE_HEADER <= line then Header
    else if ADDED_MARKER <= line then Added
    else Kept
  }

  /** What a rule looks for in a line of the given kind: the old source
      path in a header, the old class name in an added line.  Both start
      with the `n` of `net`. */
  function Target(m: Mapping, kind: LineKind): (t: string)
    requires kind != Kept
    ensures t != [] && t[0] == 'n'
  {
    if kind == Header then m.OldJavaFileName() else m.OldFQName()
  }

  /** What a rule puts in the place of its target. */
  function Replacement(m: Mapping, kind: LineKind): string
    requires kind != Kept
  {
    if kind == Header then m.NewJavaFileName() else m.NewFQName()
  }

  /** The rules applied in order to a text: the last rule rewrites what the
      others left (a left fold of `String.replace`). */
  function Rewrite(text: string, rules: seq<Mapping>, kind: LineKind): string
    requires kind != Kept
    decreases |rules|
  {
    if rules == [] then text
    else
      var m := rules[|rules| - 1];
      ReplaceAll(Rewrite(text, rules[..|rules| - 1], kind), Target(m, kind), Replacement(m, kind))
  }

  /** The rewritten form of one line of a patch. */
  function RemappedLine(rules: seq<Mapping>, line: string): string {
    var kind := Classify(line);
    if kind == Kept then line else Rewrite(line, rules, kind)
  }

  /** Every line of a patch rewritten, in order. */
  function RemappedLines(rules: seq<Mapping>, lines: seq<string>): (out: seq<string>)
    ensures |out| == |lines|
    ensures forall i :: 0 <= i < |lines| ==> out[i] == RemappedLine(rules, lines[i])
  {
    seq(|lines|, i requires 0 <= i < |lines| => RemappedLine(rules, lines[i]))
  }

  /** Appending a rule applies it to what the rules before it left. */
  lemma RewriteSnoc(text: string, rules: seq<Mapping>, m: Mapping, kind: LineKind)
    requires kind != Kept
    ensures Rewrite(text, rules + [m], kind) ==
      ReplaceAll(Rewrite(text, rules, kind), Target(m, kind), Replacement(m, kind))
  {
    var r := rules + [m];
    assert r[..|r| - 1] == rules && r[|r| - 1] == m;
  }

  /** One more rule of the sequence applied. */
  lemma RewriteStep(text: string, rules: seq<Mapping>, i: int, kind: LineKind)
    requires kind != Kept && 0 <= i < |rules|
    ensures Rewrite(text, rules[..i + 1], kind) ==
      ReplaceAll(Rewrite(text, rules[..i], kind), Target(rules[i], kind), Replacement(rules[i], kind))
  {
    assert rules[..i + 1] == rules[..i] + [rules[i]];
    RewriteSnoc(text, rules[..i], rules[i], kind);
  }

  /** The rewriting engine, built once from the parsed rules and shared by
      every patch. */
  class Remapper {
    const mappings: seq<Mapping>

    constructor (mappings: seq<Mapping>)
      ensures this.mappings == mappings
    {
      this.mappings := mappings;
    }

    /** The patch text: the rewritten lines joined by line breaks, with one
        line break after the last. */
    function RemapFile(lines: seq<string>): (out: string)
      ensures |out| > 0 && out[|out| - 1] == '\n'
      ensures out[..|out| - 1] == Join(RemappedLines(mappings, lines), "\n")
    {
      Join(RemappedLines(mappings, lines), "\n") + "\n"
    }

    /** The `forEach` over the rules: each rule in turn replaces its target
        in the text the previous rules left. */
    method ApplyRules(line: string, kind: LineKind) returns (text: string)
      requires kind != Kept
      ensures text == Rewrite(line, mappings, kind)
    {
      text := line;
      var i := 0;
      assert mappings[..0] == [];
      while i < |mappings|
        invariant 0 <= i <= |mappings|
        invariant text == Rewrite(line, mappings[..i], kind)
      {
        var m := mappings[i];
        text := ReplaceAll(text, Target(m, kind), Replacement(m, kind));
        RewriteStep(line, mappings, i, kind);
        i := i + 1;
      }
      assert mappings[..i] == mappings;
    }

    /** One line of a patch: a header has the rules' source paths rewritten,
        an added line their class names, one rule after the other; any
        other line is returned as it is. */
    method RemapLine(line: string) returns (r: string)
      ensures r == RemappedLine(mappings, line)
      ensures Classify(line) == Kept || mappings == [] ==> r == line
    {
      if DIFF_HEADER <= line || NEW_FILE_HEADER <= line || OLD_FILE_HEADER <= line {
        r := ApplyRules(line, Header);
        return;
      }
      if ADDED_MARKER <= line {
        r := ApplyRules(line, Added);
        return;
      }
      return line;
    }
  }

  // ---------------------------------------------------------------------

  /** Applying a run of rules and then another run is applying both runs in
      order. */
  lemma {:induction false} RewriteAppend(text: string, a: seq<Mapping>, b: seq<Mapping>, kind: LineKind)
    requires kind != Kept
    ensures Rewrite(text, a + b, kind) == Rewrite(Rewrite(text, a, kind), b, kind)
    decreases |b|
  {
    if b == [] {
      assert a + b == a;
    } else {
      var front, m := b[..|b| - 1], b[|b| - 1];
      assert b == front + [m];
      assert a + b == (a + front) + [m];
      RewriteAppend(text, a, front, kind);
      RewriteSnoc(text, a + front, m, kind);
      RewriteSnoc(Rewrite(text, a, kind), front, m, kind);
    }
  }

  /** The first rule rewrites the text before any other rule sees it. */
  lemma RewriteFirst(text: string, m: Mapping, rest: seq<Mapping>, kind: LineKind)
    requires kind != Kept
    ensures Rewrite(text, [m] + rest, kind) ==
      Rewrite(ReplaceAll(text, Target(m, kind), Replacement(m, kind)), rest, kind)
  {
    RewriteAppend(text, [m], rest, kind);
    RewriteSnoc(text, [], m, kind);
    assert [] + [m] == [m];
  }

  /** A prefix without the letter `n` is never touched by a rule. */
  lemma {:induction false} RewriteKeepsPrefix(p: string, t: string, rules: seq<Mapping>, kind: LineKind)
    requires kind != Kept
    requires forall i :: 0 <= i < |p| ==> p[i] != 'n'
    ensures Rewrite(p + t, rules, kind) == p + Rewrite(t, rules, kind)
    decreases |rules|
  {
    if rules != [] {
      var m := rules[|rules| - 1];
      RewriteKeepsPrefix(p, t, rules[..|rules| - 1], kind);
      ReplaceAllKeepsPrefix(p, Rewrite(t, rules[..|rules| - 1], kind), Target(m, kind), Replacement(m, kind));
    }
  }

  /** Rewriting keeps the marker that classified the line: a header keeps
      its header, an added line its leading `+`. */
  lemma RemapKeepsMarker(rules: seq<Mapping>, line: string)
    ensures DIFF_HEADER <= line ==> DIFF_HEADER <= RemappedLine(rules, line)
    ensures NEW_FILE_HEADER <= line ==> NEW_FILE_HEADER <= RemappedLine(rules, line)
    ensures OLD_FILE_HEADER <= line ==> OLD_FILE_HEADER <= RemappedLine(rules, line)
    ensures ADDED_MARKER <= line ==> ADDED_MARKER <= RemappedLine(rules, line)
  {
    var kind := Classify(line);
    if kind != Kept {
      if DIFF_HEADER <= line {
        KeepsMarker(DIFF_HEADER, line, rules, kind);
      }
      if NEW_FILE_HEADER <= line {
        KeepsMarker(NEW_FILE_HEADER, line, rules, kind);
      }
      if OLD_FILE_HEADER <= line {
        KeepsMarker(OLD_FILE_HEADER, line, rules, kind);
      }
      if ADDED_MARKER <= line {
        KeepsMarker(ADDED_MARKER, line, rules, kind);
      }
    }
  }

  lemma KeepsMarker(marker: string, line: string, rules: seq<Mapping>, kind: LineKind)
    requires kind != Kept && marker <= line
    requires forall i :: 0 <= i < |marker| ==> marker[i] != 'n'
    ensures marker <= Rewrite(line, rules, kind)
  {
    assert line == marker + line[|marker|..];
    RewriteKeepsPrefix(marker, line[|marker|..], rules, kind);
  }

  /** A character that is in neither the text nor any replacement is not
      in the rewritten text. */
  lemma {:induction false} RewriteAvoids(text: string, rules: seq<Mapping>, kind: LineKind, c: char)
    requires kind != Kept
    requires c !in text
    requires forall k :: 0 <= k < |rules| ==> c !in Replacement(rules[k], kind)
    ensures c !in Rewrite(text, rules, kind)
    decreases |rules|
  {
    if rules != [] {
      var m := rules[|rules| - 1];
      RewriteAvoids(text, rules[..|rules| - 1], kind, c);
      ReplaceAllAvoids(Rewrite(text, rules[..|rules| - 1], kind), Target(m, kind), Replacement(m, kind), c);
    }
  }

  /** Rules whose names hold no line break keep every line a single line. */
  predicate NoLineBreaks(rules: seq<Mapping>) {
    forall k :: 0 <= k < |rules| ==> '\n' !in rules[k].fullyQualifiedClassName
  }

  lemma NamesAvoidLineBreak(m: Mapping)
    requires '\n' !in m.fullyQualifiedClassName
    ensures '\n' !in m.NewFQName() && '\n' !in m.NewJavaFileName()
  {
    var fq, f := m.fullyQualifiedClassName, m.NewJavaFileName();
    forall i | 0 <= i < |f|
      ensures f[i] != '\n'
    {
      if i >= |fq| {
        assert f[i] == f[|fq|..][i - |fq|];
      }
    }
  }

  lemma RemappedLineAvoidsLineBreak(rules: seq<Mapping>, line: string)
    requires NoLineBreaks(rules) && '\n' !in line
    ensures '\n' !in RemappedLine(rules, line)
  {
    var kind := Classify(line);
    if kind != Kept {
      forall k | 0 <= k < |rules|
        ensures '\n' !in Replacement(rules[k], kind)
      {
        NamesAvoidLineBreak(rules[k]);
      }
      RewriteAvoids(line, rules, kind, '\n');
    }
  }

  /** The patch text has as many lines as the patch, in the same order, and
      line i is line i rewritten; an empty patch gives a lone line break. */
  lemma RemapFileLines(r: Remapper, lines: seq<string>)
    requires NoLineBreaks(r.mappings)
    requires forall i :: 0 <= i < |lines| ==> '\n' !in lines[i]
    ensures var out := r.RemapFile(lines);
      lines == [] ==> out == "\n"
    ensures var out := r.RemapFile(lines);
      lines != [] ==> SplitOn(out[..|out| - 1], "\n") == RemappedLines(r.mappings, lines)
  {
    var remapped := RemappedLines(r.mappings, lines);
    if lines != [] {
      forall k | 0 <= k < |remapped|
        ensures '\n' !in remapped[k]
      {
        RemappedLineAvoidsLineBreak(r.mappings, lines[k]);
      }
      SplitOnJoin(remapped, '\n');
    }
  }

  /** From a mapping file to a patch: with the rules a successful parse
      gives, each line of a patch stays one line, in order. */
  lemma ParsedRulesKeepLines(text: string, r: Remapper, lines: seq<string>)
    requires ParseMappings(text).Ok? && r.mappings == ParseMappings(text).value
    requires lines != [] && forall i :: 0 <= i < |lines| ==> '\n' !in lines[i]
    ensures var out := r.RemapFile(lines);
      SplitOn(out[..|out| - 1], "\n") == RemappedLines(r.mappings, lines)
  {
    ParseMappingsRules(text);
    assert NoLineBreaks(r.mappings) by {
      forall k | 0 <= k < |r.mappings|
        ensures '\n' !in r.mappings[k].fullyQualifiedClassName
      {
        assert r.mappings[k] in ParseMappings(text).value;
      }
    }
    RemapFileLines(r, lines);
  }

  /** A rule rewrites the leftmost occurrence of its target, whatever text
      comes before it, also where the target is only the beginning of a
      longer name: the text is matched as raw characters, not as whole class
      names or paths. */
  lemma RuleRewritesOccurrence(m: Mapping, p: string, s: string, kind: LineKind)
    requires kind != Kept
    requires forall i :: 0 <= i < |p| ==> !(Target(m, kind) <= (p + Target(m, kind) + s)[i..])
    requires Classify(p + Target(m, kind) + s) == kind
    ensures RemappedLine([m], p + Target(m, kind) + s)
      == p + Replacement(m, kind) + ReplaceAll(s, Target(m, kind), Replacement(m, kind))
  {
    var target, replacement := Target(m, kind), Replacement(m, kind);
    RewriteSnoc(p + target + s, [], m, kind);
    assert [] + [m] == [m];
    ReplaceAllFirstOccurrence(p, target, s, replacement);
  }

  /** No target starts inside a prefix without the letter `n`. */
  lemma TargetUnmatchedBefore(m: Mapping, p: string, s: string, kind: LineKind)
    requires kind != Kept
    requires forall i :: 0 <= i < |p| ==> p[i] != 'n'
    ensures forall i :: 0 <= i < |p| ==> !(Target(m, kind) <= (p + Target(m, kind) + s)[i..])
  {
    var target := Target(m, kind);
    UnmatchedPrefix(p, target + s, target);
    assert p + target + s == p + (target + s);
  }

  /** RuleRewritesOccurrence for a target that ends the line. */
  lemma RuleRewritesWhole(m: Mapping, p: string, kind: LineKind)
    requires kind != Kept
    requires forall i :: 0 <= i < |p| ==> !(Target(m, kind) <= (p + Target(m, kind))[i..])
    requires Classify(p + Target(m, kind)) == kind
    ensures RemappedLine([m], p + Target(m, kind)) == p + Replacement(m, kind)
  {
    var target, replacement := Target(m, kind), Replacement(m, kind);
    RewriteSnoc(p + target, [], m, kind);
    assert [] + [m] == [m];
    assert p + target + [] == p + target;
    assert forall i :: 0 <= i < |p| ==> (p + target + [])[i..] == (p + target)[i..];
    ReplaceAllFirstOccurrence(p, target, [], replacement);
    assert p + replacement + [] == p + replacement;
  }

  /** A line starting with `+` that is not the `+++ ` file header is an
      added line, the lone `+` of an added blank line included. */
  lemma AddedLine(line: string)
    requires line != [] && line[0] == '+' && !(NEW_FILE_HEADER <= line)
    ensures Classify(line) == Added
  {
    assert line[..1] == ADDED_MARKER;
    assert !(DIFF_HEADER <= line) && !(OLD_FILE_HEADER <= line) by {
      assert DIFF_HEADER[0] == 'd' && OLD_FILE_HEADER[0] == '-';
    }
  }

  /** A `--- ` header naming a rule's old source file, after any path
      prefix in which that file's path does not start, names the new one. */
  lemma HeaderPathRenamed(m: Mapping, line: string, p: string)
    requires OLD_FILE_HEADER <= p
    requires forall i :: 0 <= i < |p| ==> !(m.OldJavaFileName() <= (p + m.OldJavaFileName())[i..])
    requires line == p + m.OldJavaFileName()
    ensures RemappedLine([m], line) == p + m.NewJavaFileName()
  {
    assert line[..|p|] == p;
    RuleRewritesWhole(m, p, Header);
  }

  /** A removed line is left as it is, even when it names a renamed class. */
  lemma RemovedLineKept(rules: seq<Mapping>, line: string, x: string)
    requires line == "-import " + x
    ensures RemappedLine(rules, line) == line
  {
    assert line[0] == '-' && line[1] == 'i';
  }

  /** Context lines (a leading space), hunk headers (`@@`), removed lines
      other than the `--- ` file header, and empty lines are returned as they
      are, whatever the rules. */
  lemma UnmarkedLineKept(rules: seq<Mapping>, line: string)
    requires line == [] || line[0] == ' ' || line[0] == '@'
      || (line[0] == '-' && !(OLD_FILE_HEADER <= line))
    ensures Classify(line) == Kept
    ensures RemappedLine(rules, line) == line
  {
    if line != [] {
      assert !(DIFF_HEADER <= line) by { assert DIFF_HEADER[0] == 'd'; }
      assert !(NEW_FILE_HEADER <= line) && !(ADDED_MARKER <= line) by {
        assert NEW_FILE_HEADER[0] == '+' && ADDED_MARKER[0] == '+';
      }
    }
  }

  /** In an added line importing a rule's old class name, the rule puts the
      new name in its place. */
  lemma AddedImportRenamed(m: Mapping, line: string, p: string, s: string)
    requires p == "+import " && forall i :: 0 <= i < |s| ==> s[i] != 'n'
    requires line == p + m.OldFQName() + s
    ensures RemappedLine([m], line) == p + m.NewFQName() + s
  {
    assert line[0] == p[0] && line[1] == p[1];
    assert !(NEW_FILE_HEADER <= line) by { assert NEW_FILE_HEADER[1] == '+'; }
    AddedLine(line);
    TargetUnmatchedBefore(m, p, s, Added);
    RuleRewritesOccurrence(m, p, s, Added);
    ReplaceAllKeepsPrefix(s, [], m.OldFQName(), m.NewFQName());
    assert s + [] == s;
  }

  /** `WorldServer` moved into `level`: the import of a patch that uses it
      is rewritten to the new package. */
  lemma WorldServerImport(m: Mapping, line: string, p: string, s: string,
                          oldName: string, newName: string, d: string, e: string)
    requires d == "level" && e == "WorldServer"
    requires oldName == LEGACY_PACKAGE + e && newName == LEGACY_PACKAGE + d + "." + e
    requires m == Mapping(newName)
    requires p == "+import " && s == ";"
    requires line == p + oldName + s
    ensures RemappedLine([m], line) == p + newName + s
  {
    WorldServerClassName(newName, d, e);
    AddedImportRenamed(m, line, p, s);
  }

  /** ... and so is a field declared with the fully qualified legacy name,
      although the text before the name holds an `n`. */
  lemma WorldServerField(m: Mapping, line: string, p: string, s: string,
                         oldName: string, newName: string, d: string, e: string)
    requires d == "level" && e == "WorldServer"
    requires oldName == LEGACY_PACKAGE + e && newName == LEGACY_PACKAGE + d + "." + e
    requires m == Mapping(newName)
    requires p == "+    private final " && s == " world;"
    requires line == p + oldName + s
    ensures RemappedLine([m], line) == p + newName + s
  {
    WorldServerClassName(newName, d, e);
    var target := m.OldFQName();
    assert target[0] == 'n' && target[1] == 'e';
    assert line[0] == p[0] && line[1] == p[1];
    assert !(NEW_FILE_HEADER <= line) by { assert NEW_FILE_HEADER[1] == '+'; }
    AddedLine(line);
    UnmatchedPrefixPairs(p, target + s, target);
    assert p + target + s == p + (target + s);
    RuleRewritesOccurrence(m, p, s, Added);
    ReplaceAllKeepsPrefix(s, [], target, m.NewFQName());
    assert s + [] == s;
  }

  /** ... and the header naming its source file is rewritten to the new
      directory. */
  lemma WorldServerHeader(m: Mapping, line: string, p: string,
                          oldPath: string, newPath: string, d: string, e: string)
    requires d == "level" && e == "WorldServer"
    requires oldPath == LEGACY_DIRECTORY + e + JAVA_SUFFIX
    requires newPath == LEGACY_DIRECTORY + d + "/" + e + JAVA_SUFFIX
    requires m == Mapping(LEGACY_PACKAGE + d + "." + e)
    requires p == "--- a/src/main/java/"
    requires line == p + oldPath
    ensures RemappedLine([m], line) == p + newPath
  {
    WorldServerExample(m.fullyQualifiedClassName, d, e);
    var target := m.OldJavaFileName();
    assert target[0] == 'n' && target[1] == 'e';
    UnmatchedPrefixPairs(p, target, target);
    HeaderPathRenamed(m, line, p);
  }

  /** A rule for a class also rewrites a longer class name that begins with
      it: with `Entity` moved to `net.minecraft.world.entity`, an import of
      the legacy `EntityPlayer` is rewritten to the new package of `Entity`. */
  lemma LongerNameRewritten(m: Mapping, line: string, p: string, s: string, oldName: string, newName: string)
    requires oldName == LEGACY_PACKAGE + "Entity" && newName == "net.minecraft.world.entity" + "." + "Entity"
    requires m == Mapping(newName)
    requires p == "+import " && s == "Player;"
    requires line == p + oldName + s
    ensures RemappedLine([m], line) == p + newName + s
  {
    SubstringAfterLastOf("net.minecraft.world.entity", '.', "Entity");
    AddedImportRenamed(m, line, p, s);
  }
}
