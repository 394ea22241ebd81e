/** Turning the text of a class-mapping file (Spigot's ".csrg" format: one
    record per line, fields separated by single spaces, `#` comments) into
    the ordered rename rules (`RepackageNMS.repackage`, the `mappings`
    pipeline).  The rules stay in file order and are not deduplicated:
    `toSet()` on instances of the plain class `Mapping` compares them by
    identity, and every line builds a new instance. */
module MappingParser {
  import opened KotlinText
  import opened Mappings

  /** `split(" ")[1]` on a record with no space throws; this is that failure,
      with the trimmed record that caused it. */
  datatype ParseError = MalformedMappingLine(line: string)

  datatype Result<T> = Ok(value: T) | Err(error: ParseError)

  /** What one line of the file contributes. */
  datatype LineOutcome = Skipped | Renamed(rule: Mapping) | Malformed(line: string)

  /** The filter on trimmed lines: not a comment, no inner-class marker
      `$`, not empty. */
  predicate IsRecord(t: string) {
    !("#" <= t) && '$' !in t && t != []
  }

  /** One line through the pipeline: trim, filter, take field 1 with
      slashes turned into dots, build the rule, drop identity renames. */
  function ParseLine(raw: string): LineOutcome {
    var t := Trim(raw);
    if !IsRecord(t) then Skipped
    else
      var fields := SplitOn(t, " ");
      if |fields| < 2 then Malformed(t)
      else
        var m := Mapping(ReplaceAll(fields[1], "/", "."));
        if m.IsIdentity() then Skipped else Renamed(m)
  }

  /** The outcome of every line, in order (the lazy `map`/`filter` stages). */
  function Outcomes(lines: seq<string>): (outs: seq<LineOutcome>)
    ensures |outs| == |lines|
    ensures forall i :: 0 <= i < |lines| ==> outs[i] == ParseLine(lines[i])
  {
    seq(|lines|, i requires 0 <= i < |lines| => ParseLine(lines[i]))
  }

  /** Collecting the outcomes in order (`toSet()`): the first malformed
      record aborts the whole parse, skipped lines add nothing, and every
      renamed line adds its rule. */
  function Collect(outs: seq<LineOutcome>): Result<seq<Mapping>>
    decreases |outs|
  {
    if outs == [] then Ok([])
    else
      match outs[0]
      case Malformed(t) => Err(MalformedMappingLine(t))
      case Skipped => Collect(outs[1..])
      case Renamed(m) =>
        match Collect(outs[1..])
        case Ok(rest) => Ok([m] + rest)
        case Err(e) => Err(e)
  }

  /** The mapping file's text, split on "\n". */
  function ParseMappings(text: string): Result<seq<Mapping>> {
    Collect(Outcomes(SplitOn(text, "\n")))
  }

  /** What a parsed rule is like: a real rename whose new name holds none of
      the characters the pipeline split on or filtered out. */
  predicate IsParsedRule(m: Mapping) {
    var fq := m.fullyQualifiedClassName;
    !m.IsIdentity() && '/' !in fq && ' ' !in fq && '$' !in fq
  }

  // ---------------------------------------------------------------------

  /** A line is dropped when its trimmed text is a comment, holds `$` or is
      empty; it is malformed exactly when it is a record without a space. */
  lemma ParseLineOutcome(raw: string)
    ensures !IsRecord(Trim(raw)) ==> ParseLine(raw) == Skipped
    ensures ParseLine(raw).Malformed? <==> IsRecord(Trim(raw)) && ' ' !in Trim(raw)
    ensures ParseLine(raw).Malformed? ==> ParseLine(raw).line == Trim(raw)
  {
    SplitOnSingleIff(Trim(raw), ' ');
  }

  /** Field 1 of a record with a space is the text after the first space,
      up to the next space or the end; the new name is that field with every
      slash turned into a dot. */
  lemma RecordFieldOne(t: string)
    requires ' ' in t
    ensures |SplitOn(t, " ")| >= 2
    ensures var f := SplitOn(t, " ");
      var fq, n0 := ReplaceAll(f[1], "/", "."), |f[0]|;
      n0 + 1 + |fq| <= |t|
      && ' ' !in t[..n0] && t[n0] == ' '
      && ' ' !in t[n0 + 1..n0 + 1 + |fq|]
      && (n0 + 1 + |fq| == |t| || t[n0 + 1 + |fq|] == ' ')
      && (forall i :: 0 <= i < |fq| ==>
            fq[i] == if t[n0 + 1 + i] == '/' then '.' else t[n0 + 1 + i])
      && '/' !in fq && ' ' !in fq
      && (forall c :: c in fq ==> c in t || c == '.')
  {
    SplitOnSecondField(t, ' ');
    var f := SplitOn(t, " ");
    FieldRenamed(t, |f[0]| + 1, f[1]);
  }

  /** The new name made of the field found at `start` in `t`, character by
      character. */
  lemma FieldRenamed(t: string, start: nat, field: string)
    requires start + |field| <= |t| && t[start..start + |field|] == field && ' ' !in field
    ensures var fq := ReplaceAll(field, "/", ".");
      |fq| == |field|
      && (forall i :: 0 <= i < |fq| ==>
            fq[i] == if t[start + i] == '/' then '.' else t[start + i])
      && '/' !in fq && ' ' !in fq
      && (forall c :: c in fq ==> c in t || c == '.')
  {
    ReplaceCharPointwise(field, '/', '.');
    var fq := ReplaceAll(field, "/", ".");
    forall i | 0 <= i < |fq|
      ensures t[start + i] == field[i]
    {
      assert t[start..start + |field|][i] == t[start + i];
    }
    forall c | c in fq
      ensures c in t || c == '.'
    {
      var i :| 0 <= i < |fq| && fq[i] == c;
      assert field[i] == t[start + i];
    }
  }

  /** A rule comes from a record with a space, it is a real rename, and its
      new name is field 1 of the record with slashes turned into dots (see
      RecordFieldOne); it holds no slash, no space and no `$`. */
  lemma ParseLineRule(raw: string)
    requires ParseLine(raw).Renamed?
    ensures var t := Trim(raw);
      IsRecord(t) && ' ' in t
      && ParseLine(raw).rule == Mapping(ReplaceAll(SplitOn(t, " ")[1], "/", "."))
    ensures IsParsedRule(ParseLine(raw).rule)
    ensures forall c :: c in ParseLine(raw).rule.fullyQualifiedClassName ==> c in Trim(raw) || c == '.'
  {
    var t := Trim(raw);
    SplitOnSingleIff(t, ' ');
    RecordFieldOne(t);
  }

  /** The converse of ParseLineRule: every record with a space yields the
      rule built from its field 1, unless that rule renames a class to
      itself, whatever whitespace surrounds the record. */
  lemma ParseLineRecordRule(raw: string)
    requires IsRecord(Trim(raw)) && ' ' in Trim(raw)
    ensures |SplitOn(Trim(raw), " ")| >= 2
    ensures var m := Mapping(ReplaceAll(SplitOn(Trim(raw), " ")[1], "/", "."));
      ParseLine(raw) == if m.IsIdentity() then Skipped else Renamed(m)
  {
    SplitOnSingleIff(Trim(raw), ' ');
  }

  /** Collecting fails exactly when some outcome is malformed, and then it
      reports the first one. */
  lemma {:induction false} CollectError(outs: seq<LineOutcome>)
    ensures Collect(outs).Err? <==> exists i :: 0 <= i < |outs| && outs[i].Malformed?
    ensures Collect(outs).Err? ==>
      exists i :: 0 <= i < |outs| && outs[i] == Malformed(Collect(outs).error.line)
        && forall j :: 0 <= j < i ==> !outs[j].Malformed?
    decreases |outs|
  {
    if outs != [] {
      CollectError(outs[1..]);
      if !outs[0].Malformed? {
        if Collect(outs).Err? {
          var k :| 0 <= k < |outs[1..]| && outs[1..][k] == Malformed(Collect(outs).error.line)
            && forall j :: 0 <= j < k ==> !outs[1..][j].Malformed?;
          assert outs[k + 1] == outs[1..][k];
          assert forall j :: 1 <= j < k + 1 ==> outs[j] == outs[1..][j - 1];
        } else {
          forall i | 0 <= i < |outs|
            ensures !outs[i].Malformed?
          {
            if i > 0 { assert outs[i] == outs[1..][i - 1]; }
          }
        }
      }
    }
  }

  /** Every collected rule is the rule of some renamed outcome. */
  lemma {:induction false} CollectRules(outs: seq<LineOutcome>)
    requires Collect(outs).Ok?
    ensures forall m :: m in Collect(outs).value ==> Renamed(m) in outs
    decreases |outs|
  {
    if outs != [] {
      CollectRules(outs[1..]);
    }
  }

  /** Collecting two runs of outcomes one after the other gives the rules of
      the first run followed by those of the second. */
  lemma {:induction false} CollectAppend(a: seq<LineOutcome>, b: seq<LineOutcome>)
    ensures Collect(a + b) ==
      match Collect(a)
      case Err(e) => Err(e)
      case Ok(ra) =>
        match Collect(b)
        case Err(e) => Err(e)
        case Ok(rb) => Ok(ra + rb)
    decreases |a|
  {
    if a == [] {
      assert a + b == b;
      if Collect(b).Ok? {
        assert [] + Collect(b).value == Collect(b).value;
      }
    } else {
      assert (a + b)[0] == a[0] && (a + b)[1..] == a[1..] + b;
      CollectAppend(a[1..], b);
      if a[0].Renamed? && Collect(a[1..]).Ok? && Collect(b).Ok? {
        var m, ra, rb := a[0].rule, Collect(a[1..]).value, Collect(b).value;
        assert [m] + (ra + rb) == ([m] + ra) + rb;
      }
    }
  }

  /** The parse of a mapping file fails exactly when one of its lines is a
      record without a space, and then it reports the first such record. */
  lemma ParseMappingsError(text: string, lines: seq<string>)
    requires lines == SplitOn(text, "\n")
    ensures ParseMappings(text).Err? <==> exists i :: 0 <= i < |lines| && ParseLine(lines[i]).Malformed?
    ensures ParseMappings(text).Err? ==>
      exists i :: 0 <= i < |lines| && ParseLine(lines[i]) == Malformed(ParseMappings(text).error.line)
        && forall j :: 0 <= j < i ==> !ParseLine(lines[j]).Malformed?
  {
    LinesError(lines);
  }

  /** ParseMappingsError for the lines of the file given whole. */
  lemma LinesError(lines: seq<string>)
    ensures Collect(Outcomes(lines)).Err? <==> exists i :: 0 <= i < |lines| && ParseLine(lines[i]).Malformed?
    ensures Collect(Outcomes(lines)).Err? ==>
      exists i :: 0 <= i < |lines| && ParseLine(lines[i]) == Malformed(Collect(Outcomes(lines)).error.line)
        && forall j :: 0 <= j < i ==> !ParseLine(lines[j]).Malformed?
  {
    var outs := Outcomes(lines);
    CollectError(outs);
  }

  /** Parsing two mapping files written one after the other gives the rules
      of the first followed by those of the second: file order is kept. */
  lemma ParseMappingsAppend(text1: string, text2: string)
    ensures ParseMappings(text1 + "\n" + text2) ==
      match ParseMappings(text1)
      case Err(e) => Err(e)
      case Ok(r1) =>
        match ParseMappings(text2)
        case Err(e) => Err(e)
        case Ok(r2) => Ok(r1 + r2)
  {
    var l1, l2 := SplitOn(text1, "\n"), SplitOn(text2, "\n");
    SplitOnConcat(text1, '\n', text2);
    assert Outcomes(l1 + l2) == Outcomes(l1) + Outcomes(l2);
    CollectAppend(Outcomes(l1), Outcomes(l2));
  }

  /** A mapping file written out twice gives every rule twice: records are
      not merged, even identical ones. */
  lemma DuplicatesKept(text: string)
    requires ParseMappings(text).Ok?
    ensures ParseMappings(text + "\n" + text) == Ok(ParseMappings(text).value + ParseMappings(text).value)
  {
    ParseMappingsAppend(text, text);
  }

  /** Every rule of a successful parse of a mapping file is a parsed rule,
      and no name in it holds a line break. */
  lemma ParseMappingsRules(text: string)
    requires ParseMappings(text).Ok?
    ensures forall m :: m in ParseMappings(text).value ==>
      IsParsedRule(m) && '\n' !in m.fullyQualifiedClassName
  {
    var lines := SplitOn(text, "\n");
    SplitOnPiecesAvoid(text, '\n');
    CollectRules(Outcomes(lines));
    forall m | m in ParseMappings(text).value
      ensures IsParsedRule(m) && '\n' !in m.fullyQualifiedClassName
    {
      var i :| 0 <= i < |lines| && Outcomes(lines)[i] == Renamed(m);
      ParsedRuleAvoidsNewline(lines[i]);
    }
  }

  /** The rule of a line without a line break has none either. */
  lemma ParsedRuleAvoidsNewline(raw: string)
    requires ParseLine(raw).Renamed? && '\n' !in raw
    ensures IsParsedRule(ParseLine(raw).rule) && '\n' !in ParseLine(raw).rule.fullyQualifiedClassName
  {
    ParseLineRule(raw);
    TrimAvoids(raw, '\n');
  }

  /** A mapping file of a single line is parsed as that line alone. */
  lemma OneLineFile(line: string)
    requires '\n' !in line
    ensures ParseMappings(line) == Collect([ParseLine(line)])
  {
    SplitOnAbsent(line, '\n');
    assert Outcomes([line]) == [ParseLine(line)];
  }

  /** A record `<field0> <field1>` whose fields hold no space and no `$`,
      and which starts and ends with a visible character, gives the rule
      named after field 1 unless that rule is an identity rename. */
  lemma OneRecord(f0: string, f1: string)
    requires f0 != [] && f1 != []
    requires ' ' !in f0 && ' ' !in f1 && '$' !in f0 && '$' !in f1
    requires !IsWhitespace(f0[0]) && f0[0] != '#' && !IsWhitespace(f1[|f1| - 1])
    ensures var m := Mapping(ReplaceAll(f1, "/", "."));
      ParseLine(f0 + " " + f1) == if m.IsIdentity() then Skipped else Renamed(m)
  {
    var line := f0 + " " + f1;
    TwoFieldsTrimmed(line, f0, f1);
    TwoFieldsRecord(line, f0, f1);
    TwoFieldsSplit(line, f0, f1);
    RecordOfTwoFields(line, f0, f1);
  }

  lemma TwoFieldsTrimmed(line: string, f0: string, f1: string)
    requires f0 != [] && f1 != [] && line == f0 + " " + f1
    requires !IsWhitespace(f0[0]) && !IsWhitespace(f1[|f1| - 1])
    ensures Trim(line) == line
  {
    assert line[0] == f0[0] && line[|line| - 1] == f1[|f1| - 1];
    TrimVisible(line);
  }

  lemma TwoFieldsRecord(line: string, f0: string, f1: string)
    requires f0 != [] && line == f0 + " " + f1
    requires '$' !in f0 && '$' !in f1 && f0[0] != '#'
    ensures IsRecord(line)
  {
    assert line[0] == f0[0];
  }

  lemma TwoFieldsSplit(line: string, f0: string, f1: string)
    requires line == f0 + " " + f1 && ' ' !in f0 && ' ' !in f1
    ensures SplitOn(line, " ") == [f0, f1]
  {
    SplitOnPrefix(f0, ' ', f1);
    SplitOnAbsent(f1, ' ');
  }

  /** ParseLine on a trimmed record with exactly two fields. */
  lemma RecordOfTwoFields(line: string, f0: string, f1: string)
    requires Trim(line) == line && IsRecord(line) && SplitOn(line, " ") == [f0, f1]
    ensures var m := Mapping(ReplaceAll(f1, "/", "."));
      ParseLine(line) == if m.IsIdentity() then Skipped else Renamed(m)
  {
  }

  /** A mapping file holding only such a record gives that one rule, or no
      rule when it is an identity rename. */
  lemma OneRecordFile(f0: string, f1: string)
    requires f0 != [] && f1 != []
    requires ' ' !in f0 && ' ' !in f1 && '$' !in f0 && '$' !in f1 && '\n' !in f0 && '\n' !in f1
    requires !IsWhitespace(f0[0]) && f0[0] != '#' && !IsWhitespace(f1[|f1| - 1])
    ensures var m := Mapping(ReplaceAll(f1, "/", "."));
      ParseMappings(f0 + " " + f1) == if m.IsIdentity() then Ok([]) else Ok([m])
  {
    var line := f0 + " " + f1;
    TwoFieldsLine(line, f0, f1);
    RecordFile(line, f0, f1);
  }

  /** The record built from two such fields is a trimmed, one-line record
      that splits back into them. */
  lemma TwoFieldsLine(line: string, f0: string, f1: string)
    requires f0 != [] && f1 != []
    requires ' ' !in f0 && ' ' !in f1 && '$' !in f0 && '$' !in f1 && '\n' !in f0 && '\n' !in f1
    requires !IsWhitespace(f0[0]) && f0[0] != '#' && !IsWhitespace(f1[|f1| - 1])
    requires line == f0 + " " + f1
    ensures '\n' !in line && Trim(line) == line && IsRecord(line) && SplitOn(line, " ") == [f0, f1]
  {
    TwoFieldsTrimmed(line, f0, f1);
    TwoFieldsRecord(line, f0, f1);
    TwoFieldsSplit(line, f0, f1);
  }

  /** OneRecordFile for a record given whole. */
  lemma RecordFile(line: string, f0: string, f1: string)
    requires '\n' !in line && Trim(line) == line && IsRecord(line) && SplitOn(line, " ") == [f0, f1]
    ensures var m := Mapping(ReplaceAll(f1, "/", "."));
      ParseMappings(line) == if m.IsIdentity() then Ok([]) else Ok([m])
  {
    var m := Mapping(ReplaceAll(f1, "/", "."));
    RecordOfTwoFields(line, f0, f1);
    OneOutcomeFile(line, if m.IsIdentity() then Skipped else Renamed(m));
  }

  /** A mapping file of one line contributes what that line does. */
  lemma OneOutcomeFile(line: string, o: LineOutcome)
    requires '\n' !in line && ParseLine(line) == o
    ensures ParseMappings(line) == match o
      case Skipped => Ok([])
      case Renamed(m) => Ok([m])
      case Malformed(t) => Err(MalformedMappingLine(t))
  {
    OneLineFile(line);
    CollectOne(o);
  }

  /** Collecting a single outcome. */
  lemma CollectOne(o: LineOutcome)
    ensures Collect([o]) == match o
      case Skipped => Ok([])
      case Renamed(m) => Ok([m])
      case Malformed(t) => Err(MalformedMappingLine(t))
  {
    assert [o][1..] == [];
    match o
    case Skipped =>
    case Renamed(m) => assert [m] + [] == [m];
    case Malformed(t) =>
  }

  // The worked examples below name their strings by segments: the literals
  // are pinned by `requires` clauses on parameters instead of written into
  // the `ensures`.  Proofs about `replace` and `split` then work segment by
  // segment through the general lemmas, instead of unfolding the recursive
  // definitions over every character of a long literal, which the verifier
  // cannot do within its resource limit.

  /** The worked example: the record `1 net/minecraft/server/level/WorldServer`
      (field 1 given by its segments) gives the rule moving `WorldServer`
      into the `level` sub-package. */
  lemma WorldServerRecord(line: string, f0: string, f1: string, fq: string,
                              a: string, b: string, c: string, d: string, e: string)
    requires a == "net" && b == "minecraft" && c == "server" && d == "level" && e == "WorldServer"
    requires f0 == "1" && f1 == a + "/" + b + "/" + c + "/" + d + "/" + e
    requires line == f0 + " " + f1
    requires fq == LEGACY_PACKAGE + d + "." + e
    ensures ParseMappings(line) == Ok([Mapping(fq)])
  {
    WorldServerLine(line, f0, f1, fq, a, b, c, d, e);
    WorldServerExample(fq, d, e);
    RecordFile(line, f0, f1);
  }

  lemma WorldServerLine(line: string, f0: string, f1: string, fq: string,
                        a: string, b: string, c: string, d: string, e: string)
    requires a == "net" && b == "minecraft" && c == "server" && d == "level" && e == "WorldServer"
    requires f0 == "1" && f1 == a + "/" + b + "/" + c + "/" + d + "/" + e
    requires line == f0 + " " + f1
    requires fq == LEGACY_PACKAGE + d + "." + e
    ensures '\n' !in line && Trim(line) == line && IsRecord(line) && SplitOn(line, " ") == [f0, f1]
    ensures ReplaceAll(f1, "/", ".") == fq
  {
    ExampleWords(f0, a, b, c, d, e);
    WordsRecord(line, f0, f1, a, b, c, d, e);
    LegacyPackageSegments(a, b, c);
    SlashesToDots(f1, fq, a, b, c, d, e);
  }

  /** A word: letters and digits only. */
  predicate IsWord(x: string) {
    x != [] && forall i :: 0 <= i < |x| ==> 'a' <= x[i] <= 'z' || 'A' <= x[i] <= 'Z' || '0' <= x[i] <= '9'
  }

  lemma ExampleWords(f0: string, a: string, b: string, c: string, d: string, e: string)
    requires a == "net" && b == "minecraft" && c == "server" && d == "level" && e == "WorldServer"
    requires f0 == "1"
    ensures IsWord(f0) && IsWord(a) && IsWord(b) && IsWord(c) && IsWord(d) && IsWord(e)
  {
  }

  /** A word holds none of the characters the pipeline splits on or filters
      out, and no whitespace. */
  lemma WordAvoids(x: string)
    requires IsWord(x)
    ensures ' ' !in x && '$' !in x && '\n' !in x && '/' !in x && '.' !in x
    ensures x[0] != '#' && !IsWhitespace(x[0]) && !IsWhitespace(x[|x| - 1])
  {
  }

  /** A record whose field 0 is a word and whose field 1 is a path of five
      words is a trimmed, one-line record that splits back into them. */
  lemma WordsRecord(line: string, f0: string, f1: string,
                    a: string, b: string, c: string, d: string, e: string)
    requires IsWord(f0) && IsWord(a) && IsWord(b) && IsWord(c) && IsWord(d) && IsWord(e)
    requires f1 == a + "/" + b + "/" + c + "/" + d + "/" + e
    requires line == f0 + " " + f1
    ensures '\n' !in line && Trim(line) == line && IsRecord(line) && SplitOn(line, " ") == [f0, f1]
  {
    WordAvoids(f0);
    WordAvoids(a);
    WordAvoids(b);
    WordAvoids(c);
    WordAvoids(d);
    WordAvoids(e);
    PathAvoids(f1, a, b, c, d, e);
    TwoFieldsLine(line, f0, f1);
  }

  /** A path of segments avoids every character its segments avoid, except
      the slash. */
  lemma PathAvoids(path: string, a: string, b: string, c: string, d: string, e: string)
    requires path == a + "/" + b + "/" + c + "/" + d + "/" + e && e != []
    ensures forall x :: x != '/' && x !in a && x !in b && x !in c && x !in d && x !in e ==> x !in path
    ensures path != [] && path[|path| - 1] == e[|e| - 1]
  {
  }

  /** Five slash-separated segments become five dot-separated ones. */
  lemma SlashesToDots(path: string, dotted: string, a: string, b: string, c: string, d: string, e: string)
    requires '/' !in a && '/' !in b && '/' !in c && '/' !in d && '/' !in e
    requires path == a + "/" + b + "/" + c + "/" + d + "/" + e
    requires dotted == a + "." + b + "." + c + "." + d + "." + e
    ensures ReplaceAll(path, "/", ".") == dotted
  {
    ReplaceCharPointwise(path, '/', '.');
    var r := ReplaceAll(path, "/", ".");
    assert |r| == |dotted|;
    forall i | 0 <= i < |r|
      ensures r[i] == dotted[i]
    {
    }
  }
}
