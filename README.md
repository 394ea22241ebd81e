# Toothpick `RepackageNMS`: the patch-remapping engine

Toothpick's `repackageNMS` Gradle task rewrites a fork's patch files when
Minecraft's server classes move out of the single legacy package
`net.minecraft.server` into sub-packages. It has three parts:

- It reads a class-mapping file in Spigot's `.csrg` format. Each line is
  `<obfuscated> <new/slashed/name>`, and `#` starts a comment.
- It turns every record into a rename rule (`Mapping`). The rule's old name
  is the simple class name inside the legacy package. Its new name is the
  fully qualified name from the record.
- It rewrites every line of every patch (`Remapper`):
  - header lines (`diff --git `, `+++ `, `--- `) have each rule's old source
    path replaced by its new one;
  - added lines (`+`) have each rule's old class name replaced by its new one;
  - every other line is kept.

The model has four modules:

- `KotlinText`: the Kotlin string functions the engine relies on, written
  out with their JVM behaviour. These are `trim` (with `Char.isWhitespace`),
  `substringAfterLast`, `replace` (left to right, without overlap),
  `split` (empty pieces kept) and `joinToString`. Lemmas relate them: split
  and join are inverse, replace is split-then-join, and so on.
- `Mappings`: the rule. It is a datatype holding the constructor's one
  argument, with the derived names as member functions.
- `MappingParser`: the parsing pipeline, from the mapping text to the
  ordered sequence of rules. It has an error result for a record without a
  space, where the Kotlin code throws.
- `Remapping`: line classification, the rule fold as a specification
  function, and the class `Remapper`. In `Remapper`, the `forEach` with its
  `var text` accumulator is a `while` loop proved equal to the fold, and
  `remapFile` is a function over the patch's lines.

The rules are a sequence in mapping-file order, and duplicates are kept.
`toSet()` is applied to instances of `Mapping`, a plain (non-`data`)
class, so it compares them by identity. Every line builds a fresh instance,
so nothing is ever merged. The set keeps insertion order, so every line of a
patch sees the rules in file order. Read as a set of values, the
pipeline would merge identical records. The code does not, the model
follows the code, and `DuplicatesKept` states the result.

Paths in the table below are relative to the repository root.

## Model

| member | source | states |
|---|---|---|
| KotlinText.TrimStart | src/main/kotlin/xyz/jpenilla/toothpick/task/RepackageNMS.kt:55 | the result is a suffix of the line; everything dropped is whitespace and the result does not start with whitespace |
| KotlinText.TrimEnd | src/main/kotlin/xyz/jpenilla/toothpick/task/RepackageNMS.kt:55 | the result is a prefix of the line; everything dropped is whitespace and the result does not end with whitespace |
| KotlinText.TrimSlice | src/main/kotlin/xyz/jpenilla/toothpick/task/RepackageNMS.kt:55 | `trim()` gives the slice of the line between its leading and trailing whitespace; everything outside the slice is whitespace, and the slice neither starts nor ends with whitespace |
| KotlinText.TrimAvoids | src/main/kotlin/xyz/jpenilla/toothpick/task/RepackageNMS.kt:55 | trimming adds no character: a character absent from the line is absent from the trimmed line |
| KotlinText.TrimVisible | src/main/kotlin/xyz/jpenilla/toothpick/task/RepackageNMS.kt:55 | a line that starts and ends with a visible character is left unchanged by `trim()` |
| KotlinText.LastIndexOf | src/main/kotlin/xyz/jpenilla/toothpick/task/RepackageNMS.kt:81 | the index is -1 or a position holding the character, and no later position holds it |
| KotlinText.SubstringAfterLast | src/main/kotlin/xyz/jpenilla/toothpick/task/RepackageNMS.kt:81 | `className` is a suffix of the name that holds no `.`, and it is either the whole name or preceded by a `.` |
| KotlinText.SubstringAfterLastOf | src/main/kotlin/xyz/jpenilla/toothpick/task/RepackageNMS.kt:81 | for a name `p.x` whose last segment `x` holds no dot, `substringAfterLast(".")` is exactly `x` |
| KotlinText.SplitOn | src/main/kotlin/xyz/jpenilla/toothpick/task/RepackageNMS.kt:53 | `split` always yields at least one piece (the empty text gives one empty piece) |
| KotlinText.JoinSplitOn | src/main/kotlin/xyz/jpenilla/toothpick/task/RepackageNMS.kt:53 | joining the pieces of a split with the delimiter gives back the original text, so no character is lost or added |
| KotlinText.SplitOnAbsent | src/main/kotlin/xyz/jpenilla/toothpick/task/RepackageNMS.kt:53 | a text without the delimiter is split into exactly itself |
| KotlinText.SplitOnPrefix | src/main/kotlin/xyz/jpenilla/toothpick/task/RepackageNMS.kt:53 | the first piece ends at the first delimiter, and the rest is the split of what follows it |
| KotlinText.SplitOnConcat | src/main/kotlin/xyz/jpenilla/toothpick/task/RepackageNMS.kt:53 | splitting `x` + delimiter + `y` gives the pieces of `x` followed by those of `y` |
| KotlinText.SplitOnPiecesAvoid | src/main/kotlin/xyz/jpenilla/toothpick/task/RepackageNMS.kt:53 | no piece of a split holds the delimiter |
| KotlinText.SplitOnSingleIff | src/main/kotlin/xyz/jpenilla/toothpick/task/RepackageNMS.kt:57 | a split on a space has one piece exactly when the text holds no space, so field 1 exists exactly when there is a space |
| KotlinText.SplitOnSecondField | src/main/kotlin/xyz/jpenilla/toothpick/task/RepackageNMS.kt:57 | field 0 is the text before the first space; field 1 is the text from there to the next space or the end; neither holds a space |
| KotlinText.SplitOnJoin | src/main/kotlin/xyz/jpenilla/toothpick/task/RepackageNMS.kt:90 | splitting a `joinToString` on its separator gives back the pieces, when no piece holds the separator |
| KotlinText.JoinSnoc | src/main/kotlin/xyz/jpenilla/toothpick/task/RepackageNMS.kt:90 | joining one more piece appends the separator and that piece |
| KotlinText.ReplaceAllIsSplitJoin | src/main/kotlin/xyz/jpenilla/toothpick/task/RepackageNMS.kt:99 | reference definition: `replace(old, new)` equals splitting on `old` and joining with `new` |
| KotlinText.ReplaceAllSelf | src/main/kotlin/xyz/jpenilla/toothpick/task/RepackageNMS.kt:99 | replacing a value by itself changes nothing |
| KotlinText.ReplaceAllNoOccurrence | src/main/kotlin/xyz/jpenilla/toothpick/task/RepackageNMS.kt:99 | a text in which the old value occurs at no position is left unchanged |
| KotlinText.ReplaceAllAtMatch | src/main/kotlin/xyz/jpenilla/toothpick/task/RepackageNMS.kt:99 | an occurrence at the start is replaced, and scanning resumes after it, without overlap |
| KotlinText.ReplaceAllKeepsPrefix | src/main/kotlin/xyz/jpenilla/toothpick/task/RepackageNMS.kt:99 | a prefix none of whose characters can start the old value passes through unchanged |
| KotlinText.ReplaceAllUnmatchedPrefix | src/main/kotlin/xyz/jpenilla/toothpick/task/RepackageNMS.kt:99-104 | a prefix at none of whose positions an occurrence starts passes through unchanged |
| KotlinText.UnmatchedPrefix | src/main/kotlin/xyz/jpenilla/toothpick/task/RepackageNMS.kt:99-104 | no occurrence starts in a prefix that holds no character equal to the old value's first |
| KotlinText.UnmatchedPrefixPairs | src/main/kotlin/xyz/jpenilla/toothpick/task/RepackageNMS.kt:99-104 | no occurrence starts in a prefix where each character equal to the old value's first is followed by one that differs from its second |
| KotlinText.ReplaceAllFirstOccurrence | src/main/kotlin/xyz/jpenilla/toothpick/task/RepackageNMS.kt:99-104 | `replace` rewrites the leftmost occurrence, after any prefix in which no occurrence starts, whatever characters that prefix holds, and then rewrites the rest on its own |
| KotlinText.ReplaceAllAvoids | src/main/kotlin/xyz/jpenilla/toothpick/task/RepackageNMS.kt:99 | a character absent from the text and from the new value is absent from the result |
| KotlinText.ReplaceCharPointwise | src/main/kotlin/xyz/jpenilla/toothpick/task/RepackageNMS.kt:57 | replacing one character by another keeps the length and rewrites each position on its own |
| KotlinText.ReplaceCharConcat | src/main/kotlin/xyz/jpenilla/toothpick/task/RepackageNMS.kt:85 | replacing one character distributes over concatenation |
| KotlinText.ReplaceAll | src/main/kotlin/xyz/jpenilla/toothpick/task/RepackageNMS.kt:99 | `String.replace(old, new)`: a left-to-right scan that replaces each occurrence without overlap; it is split-then-join (`ReplaceAllIsSplitJoin`), it keeps text without the old value (`ReplaceAllNoOccurrence`) and adds only characters of the new value (`ReplaceAllAvoids`) |
| KotlinText.Join | src/main/kotlin/xyz/jpenilla/toothpick/task/RepackageNMS.kt:90 | `joinToString(sep)`: the pieces with the separator between neighbours; it is the inverse of `split` (`JoinSplitOn`, `SplitOnJoin`) and grows by one piece as `JoinSnoc` states |
| Mappings.JavaFileName | src/main/kotlin/xyz/jpenilla/toothpick/task/RepackageNMS.kt:85 | the source file of a dotted name has the same characters with every `.` turned into `/`, followed by `.java` |
| Mappings.LegacyPackagePath | src/main/kotlin/xyz/jpenilla/toothpick/task/RepackageNMS.kt:82-83 | the legacy package and the legacy directory name the same place: turning the dots of `net.minecraft.server.y` into slashes gives `net/minecraft/server/` followed by `y` with its dots turned into slashes |
| Mappings.FileNamesFollowNames | src/main/kotlin/xyz/jpenilla/toothpick/task/RepackageNMS.kt:82-85 | `oldJavaFileName` is the source file of `oldFQName`, and `newJavaFileName` is the source file of `newFQName` |
| Mappings.IdentityIff | src/main/kotlin/xyz/jpenilla/toothpick/task/RepackageNMS.kt:59 | a rule renames its class to itself exactly when the new name lies directly in the legacy package, with no further dot after the prefix |
| Mappings.JavaFileNameInjective | src/main/kotlin/xyz/jpenilla/toothpick/task/RepackageNMS.kt:85 | two slash-free dotted names with the same source file are equal |
| Mappings.RenameMovesFile | src/main/kotlin/xyz/jpenilla/toothpick/task/RepackageNMS.kt:59 | a rule that survives the identity filter, and whose name holds no slash, also moves its source file |
| Mappings.WorldServerExample | src/main/kotlin/xyz/jpenilla/toothpick/task/RepackageNMS.kt:81-85 | worked example: `net.minecraft.server.level.WorldServer` has class name `WorldServer`, old name `net.minecraft.server.WorldServer`, old file `net/minecraft/server/WorldServer.java`, new file `net/minecraft/server/level/WorldServer.java`, and it is not an identity rename |
| Mappings.WorldServerClassName | src/main/kotlin/xyz/jpenilla/toothpick/task/RepackageNMS.kt:81-82 | the example's class name is `WorldServer`, and its old name differs from its new name |
| Mappings.WorldServerNewPath | src/main/kotlin/xyz/jpenilla/toothpick/task/RepackageNMS.kt:85 | the example's new source file is `net/minecraft/server/level/WorldServer.java` |
| MappingParser.ParseLineOutcome | src/main/kotlin/xyz/jpenilla/toothpick/task/RepackageNMS.kt:55-57 | a trimmed line that is a comment, holds `$` or is empty yields nothing; a line fails exactly when it is a record without a space, and the failure carries the trimmed line |
| MappingParser.IsRecord | src/main/kotlin/xyz/jpenilla/toothpick/task/RepackageNMS.kt:56 | the filter: a trimmed line is kept when it does not start with `#`, holds no `$` and is not empty; `ParseLineOutcome` states that every other line yields nothing |
| MappingParser.ParseLine | src/main/kotlin/xyz/jpenilla/toothpick/task/RepackageNMS.kt:55-59 | one line through trim, filter, field 1 with dots for slashes, and the identity filter; `ParseLineOutcome`, `ParseLineRule` and `ParseLineRecordRule` characterise every outcome |
| MappingParser.Outcomes | src/main/kotlin/xyz/jpenilla/toothpick/task/RepackageNMS.kt:54-59 | the outcome of every line, one per line and in order |
| MappingParser.Collect | src/main/kotlin/xyz/jpenilla/toothpick/task/RepackageNMS.kt:60 | the lazy sequence drained in order: the first malformed record fails the whole parse (`CollectError`), and the rules are those of the renamed lines in order (`CollectRules`, `CollectAppend`) |
| MappingParser.ParseMappings | src/main/kotlin/xyz/jpenilla/toothpick/task/RepackageNMS.kt:52-60 | the whole mapping text to its rules; `ParseMappingsError`, `ParseMappingsAppend`, `ParseMappingsRules` and `DuplicatesKept` state its failure case, order and content |
| MappingParser.RecordFieldOne | src/main/kotlin/xyz/jpenilla/toothpick/task/RepackageNMS.kt:57 | the new name is field 1 of the record, position by position with `/` turned into `.`; it sits after the first space and runs to the next space or the end, and it holds no slash and no space |
| MappingParser.FieldRenamed | src/main/kotlin/xyz/jpenilla/toothpick/task/RepackageNMS.kt:57 | a field of the record with its slashes turned into dots, character by character |
| MappingParser.ParseLineRule | src/main/kotlin/xyz/jpenilla/toothpick/task/RepackageNMS.kt:55-59 | a line that yields a rule is a record with a space; the rule is built from field 1 with dots for slashes; it is not an identity rename; its name holds no slash, space or `$` |
| MappingParser.ParseLineRecordRule | src/main/kotlin/xyz/jpenilla/toothpick/task/RepackageNMS.kt:55-59 | the converse: every record with a space, whatever whitespace surrounds it, yields the rule built from its field 1 with dots for slashes, unless that rule renames a class to itself, in which case it yields nothing |
| MappingParser.CollectError | src/main/kotlin/xyz/jpenilla/toothpick/task/RepackageNMS.kt:57-60 | collecting fails exactly when some line fails, and then it reports the first failing line |
| MappingParser.CollectRules | src/main/kotlin/xyz/jpenilla/toothpick/task/RepackageNMS.kt:58-60 | every collected rule is the rule of some line |
| MappingParser.CollectAppend | src/main/kotlin/xyz/jpenilla/toothpick/task/RepackageNMS.kt:60 | collecting two runs of lines gives the rules of the first followed by those of the second, so file order is kept |
| MappingParser.ParseMappingsError | src/main/kotlin/xyz/jpenilla/toothpick/task/RepackageNMS.kt:52-60 | parsing a mapping file fails exactly when one of its lines is a record without a space, and it reports the first such record |
| MappingParser.LinesError | src/main/kotlin/xyz/jpenilla/toothpick/task/RepackageNMS.kt:54-60 | the same for the file's lines given directly |
| MappingParser.ParseMappingsAppend | src/main/kotlin/xyz/jpenilla/toothpick/task/RepackageNMS.kt:52-60 | parsing two files written one after the other gives the rules of the first followed by those of the second |
| MappingParser.DuplicatesKept | src/main/kotlin/xyz/jpenilla/toothpick/task/RepackageNMS.kt:60 | a mapping file written out twice gives every rule twice: `toSet()` on plain instances merges nothing |
| MappingParser.ParseMappingsRules | src/main/kotlin/xyz/jpenilla/toothpick/task/RepackageNMS.kt:52-60 | every rule of a successful parse is a real rename whose name holds no slash, space, `$` or line break |
| MappingParser.ParsedRuleAvoidsNewline | src/main/kotlin/xyz/jpenilla/toothpick/task/RepackageNMS.kt:53-57 | the rule of a line without a line break has none in its name either |
| MappingParser.OneLineFile | src/main/kotlin/xyz/jpenilla/toothpick/task/RepackageNMS.kt:53 | a mapping file of a single line is parsed as that line alone |
| MappingParser.OneRecord | src/main/kotlin/xyz/jpenilla/toothpick/task/RepackageNMS.kt:55-59 | a record `f0 f1`, whose fields hold no space or `$` and which starts and ends visibly, yields the rule named by `f1` with dots for slashes, unless that rule is an identity rename |
| MappingParser.RecordOfTwoFields | src/main/kotlin/xyz/jpenilla/toothpick/task/RepackageNMS.kt:56-59 | a trimmed record that splits into two fields yields the rule of field 1, or nothing for an identity rename |
| MappingParser.OneRecordFile | src/main/kotlin/xyz/jpenilla/toothpick/task/RepackageNMS.kt:52-60 | a mapping file made of one such record gives exactly that rule, or no rule for an identity rename |
| MappingParser.TwoFieldsLine | src/main/kotlin/xyz/jpenilla/toothpick/task/RepackageNMS.kt:53-57 | such a record is one line, unchanged by `trim`, passes the filter, and splits back into its two fields |
| MappingParser.RecordFile | src/main/kotlin/xyz/jpenilla/toothpick/task/RepackageNMS.kt:52-60 | OneRecordFile for a record given whole |
| MappingParser.OneOutcomeFile | src/main/kotlin/xyz/jpenilla/toothpick/task/RepackageNMS.kt:53-60 | a one-line mapping file contributes what its line does: nothing, one rule, or that line's failure |
| MappingParser.CollectOne | src/main/kotlin/xyz/jpenilla/toothpick/task/RepackageNMS.kt:60 | collecting a single line's outcome |
| MappingParser.WorldServerRecord | src/main/kotlin/xyz/jpenilla/toothpick/task/RepackageNMS.kt:52-60 | worked example: the file `1 net/minecraft/server/level/WorldServer` gives exactly the rule with new name `net.minecraft.server.level.WorldServer` |
| MappingParser.WorldServerLine | src/main/kotlin/xyz/jpenilla/toothpick/task/RepackageNMS.kt:55-57 | the example record is a trimmed one-line record whose field 1, with dots for slashes, is `net.minecraft.server.level.WorldServer` |
| MappingParser.WordsRecord | src/main/kotlin/xyz/jpenilla/toothpick/task/RepackageNMS.kt:55-57 | a record whose field 0 is a word and whose field 1 is a slashed path of words passes the filter and splits into those two fields |
| MappingParser.SlashesToDots | src/main/kotlin/xyz/jpenilla/toothpick/task/RepackageNMS.kt:57 | a slashed path of five segments becomes the dotted name of the same segments |
| Remapping.Target | src/main/kotlin/xyz/jpenilla/toothpick/task/RepackageNMS.kt:99-104 | what a rule looks for (old path in a header, old class name in an added line) is never empty and starts with the `n` of `net` |
| Remapping.Classify | src/main/kotlin/xyz/jpenilla/toothpick/task/RepackageNMS.kt:93-102 | a line starting with `diff --git `, `+++ ` or `--- ` is a header, else one starting with `+` is an added line, else it is kept; `AddedLine`, `HeaderPathRenamed` and `UnmarkedLineKept` state the cases |
| Remapping.Rewrite | src/main/kotlin/xyz/jpenilla/toothpick/task/RepackageNMS.kt:98-105 | every rule's `replace` applied in order, each to what the earlier rules left; `RewriteSnoc`, `RewriteAppend` and `RewriteFirst` state the order, and `ApplyRules` is the loop proved equal to it |
| Remapping.RemappedLine | src/main/kotlin/xyz/jpenilla/toothpick/task/RepackageNMS.kt:92-108 | a header line gets the path rewrite, an added line the name rewrite, any other line is returned as it is; `RemapKeepsMarker` and `RemappedLineAvoidsLineBreak` state what is kept |
| Remapping.RemappedLines | src/main/kotlin/xyz/jpenilla/toothpick/task/RepackageNMS.kt:90 | one rewritten line per input line, in order: line i is line i rewritten |
| Remapping.RewriteSnoc | src/main/kotlin/xyz/jpenilla/toothpick/task/RepackageNMS.kt:99 | one more rule at the end of the sequence is applied to what the earlier rules left |
| Remapping.RewriteStep | src/main/kotlin/xyz/jpenilla/toothpick/task/RepackageNMS.kt:99-104 | one iteration of the `forEach`: rule i is applied to the text left by rules 0 to i-1 |
| Remapping.Remapper.constructor | src/main/kotlin/xyz/jpenilla/toothpick/task/RepackageNMS.kt:88 | the remapper holds the rules it is given, in their order |
| Remapping.Remapper.RemapFile | src/main/kotlin/xyz/jpenilla/toothpick/task/RepackageNMS.kt:89-90 | the patch text ends with one line break, and before it is the rewritten lines joined by line breaks |
| Remapping.Remapper.ApplyRules | src/main/kotlin/xyz/jpenilla/toothpick/task/RepackageNMS.kt:98-100 | the loop over the rules with its `text` accumulator computes the left fold of `replace` over the rules, in order |
| Remapping.Remapper.RemapLine | src/main/kotlin/xyz/jpenilla/toothpick/task/RepackageNMS.kt:92-108 | a header line gets the fold of path replacements; any other line starting with `+` gets the fold of class-name replacements; every other line, and every line when there are no rules, is returned unchanged |
| Remapping.RewriteAppend | src/main/kotlin/xyz/jpenilla/toothpick/task/RepackageNMS.kt:99 | applying two runs of rules one after the other is applying their concatenation |
| Remapping.RewriteFirst | src/main/kotlin/xyz/jpenilla/toothpick/task/RepackageNMS.kt:104 | the first rule rewrites the line before any later rule sees it |
| Remapping.RewriteKeepsPrefix | src/main/kotlin/xyz/jpenilla/toothpick/task/RepackageNMS.kt:99-104 | a prefix without the letter `n` is never touched by any rule |
| Remapping.RemapKeepsMarker | src/main/kotlin/xyz/jpenilla/toothpick/task/RepackageNMS.kt:93-106 | rewriting keeps the marker that classified the line: a header stays the same header, an added line keeps its `+` |
| Remapping.KeepsMarker | src/main/kotlin/xyz/jpenilla/toothpick/task/RepackageNMS.kt:93-106 | any marker without an `n` still starts the rewritten line |
| Remapping.RewriteAvoids | src/main/kotlin/xyz/jpenilla/toothpick/task/RepackageNMS.kt:99-104 | a character absent from the line and from every replacement is absent from the rewritten line |
| Remapping.NamesAvoidLineBreak | src/main/kotlin/xyz/jpenilla/toothpick/task/RepackageNMS.kt:84-85 | a rule whose name holds no line break has new names and new paths without one |
| Remapping.RemappedLineAvoidsLineBreak | src/main/kotlin/xyz/jpenilla/toothpick/task/RepackageNMS.kt:92-108 | with such rules, rewriting a line never introduces a line break |
| Remapping.RemapFileLines | src/main/kotlin/xyz/jpenilla/toothpick/task/RepackageNMS.kt:89-90 | an empty patch gives a lone line break; otherwise splitting the output (before its final line break) gives back exactly the rewritten lines, so line count and order are kept |
| Remapping.ParsedRulesKeepLines | src/main/kotlin/xyz/jpenilla/toothpick/task/RepackageNMS.kt:52-61 | with the rules of a successful parse, each line of a patch stays one line, in order |
| Remapping.RuleRewritesOccurrence | src/main/kotlin/xyz/jpenilla/toothpick/task/RepackageNMS.kt:99-104 | a rule replaces the leftmost occurrence of its target, whatever text comes before it, also where the target is only the beginning of a longer name; the rest of the line is rewritten on its own |
| Remapping.RuleRewritesWhole | src/main/kotlin/xyz/jpenilla/toothpick/task/RepackageNMS.kt:99-104 | a target that ends the line is replaced by the replacement, after any prefix in which the target does not start |
| Remapping.TargetUnmatchedBefore | src/main/kotlin/xyz/jpenilla/toothpick/task/RepackageNMS.kt:99-104 | no rule's target starts inside a prefix without the letter `n` |
| Remapping.AddedLine | src/main/kotlin/xyz/jpenilla/toothpick/task/RepackageNMS.kt:93-102 | every line starting with `+` other than the `+++ ` header is an added line, the lone `+` and `++…` lines included |
| Remapping.HeaderPathRenamed | src/main/kotlin/xyz/jpenilla/toothpick/task/RepackageNMS.kt:93-100 | a `--- ` header naming a rule's old source file after any path prefix (such as `a/src/main/java/`) in which that path does not start is rewritten to name the new source file |
| Remapping.RemovedLineKept | src/main/kotlin/xyz/jpenilla/toothpick/task/RepackageNMS.kt:107 | a removed line (`-import …`) is kept as it is, even when it names a renamed class |
| Remapping.UnmarkedLineKept | src/main/kotlin/xyz/jpenilla/toothpick/task/RepackageNMS.kt:93-107 | an empty line, a context line (leading space), a hunk header (`@`) and a removed line other than the `--- ` header are kept, whatever the rules |
| Remapping.AddedImportRenamed | src/main/kotlin/xyz/jpenilla/toothpick/task/RepackageNMS.kt:102-105 | in an added import of a rule's old class name, the rule puts the new name in its place |
| Remapping.WorldServerImport | src/main/kotlin/xyz/jpenilla/toothpick/task/RepackageNMS.kt:102-105 | worked example: `+import net.minecraft.server.WorldServer;` becomes `+import net.minecraft.server.level.WorldServer;` |
| Remapping.WorldServerField | src/main/kotlin/xyz/jpenilla/toothpick/task/RepackageNMS.kt:102-105 | an added field `+    private final net.minecraft.server.WorldServer world;` gets the new name, although the text before the name holds an `n` |
| Remapping.WorldServerHeader | src/main/kotlin/xyz/jpenilla/toothpick/task/RepackageNMS.kt:93-100 | the header `--- a/src/main/java/net/minecraft/server/WorldServer.java` becomes `--- a/src/main/java/net/minecraft/server/level/WorldServer.java` |
| Remapping.LongerNameRewritten | src/main/kotlin/xyz/jpenilla/toothpick/task/RepackageNMS.kt:104 | matching is on raw text: with `Entity` moved to `net.minecraft.world.entity`, an added import of the legacy `EntityPlayer` is rewritten to `net.minecraft.world.entity.EntityPlayer` |

## Left out

- Downloading the mapping file (`classMappingsUrl.readText()`, line 48) is network I/O. The mapping text is a parameter of `ParseMappings`.
- The Gradle task wiring (`@TaskAction`, `@Input`, the default URL) and the `logger.lifecycle` calls are framework plumbing and logging.
- The loop over the subprojects (lines 63-75) is left out. It covers the output directory named with `System.currentTimeMillis()`, `mkdir()`, `listFiles()`, the `parallelStream()` fan-out and `writeText`. All of it is filesystem I/O and concurrency. Since every patch is rewritten by the pure `remapFile`, the order of the parallel writes does not change any file's contents.
- `File.readLines()` (line 90) is a JVM library call. `RemapFile` takes the patch's lines as a sequence, which holds no `\n` or `\r`.
- `Clean.kt` is recursive directory deletion, with no logic to model. `build.gradle.kts` is build configuration.
- Strings are sequences of `char`. The JVM's UTF-16 code units are not modelled separately. `IsWhitespace` lists the code points for which `Char.isWhitespace` holds in the JVM's Unicode tables, and the model does not follow later changes to those tables.
- A record with no space makes `split(" ")[1]` throw `IndexOutOfBoundsException`. It is modelled as the error result `MalformedMappingLine` carrying the trimmed record. Because the sequence is lazy, the first such record in file order is the one that throws.
- The `Mapping` class's derived properties (`oldFQName`, `oldJavaFileName`, `newFQName`, `newJavaFileName`) are member functions whose bodies are the Kotlin initializers. What they mean is stated by `FileNamesFollowNames`, `IdentityIff`, `RenameMovesFile` and `JavaFileName`.
- `KotlinText.Trim` has no contract of its own. `TrimSlice`, `TrimAvoids` and `TrimVisible` state what it does.
