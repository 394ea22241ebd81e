/** One class-rename rule (`RepackageNMS.Mapping`).  The Kotlin class takes
    the class's new fully qualified name and derives every other name from
    it in its property initializers; here the datatype keeps that one
    argument and the derived names are member functions of it, so every
    value of the type is a rule the constructor could have built. */
module Mappings {
  import opened KotlinText

  /** The one legacy package every class is assumed to come from. */
  const LEGACY_PACKAGE: string := "net.minecraft.server."
  /** The legacy package as a source directory. */
  const LEGACY_DIRECTORY: string := "net/minecraft/server/"
  const JAVA_SUFFIX: string := ".java"

  /** The source file of a dotted class name: dots become slashes, and
      ".java" is appended. */
  function JavaFileName(dotted: string): (r: string)
    ensures |r| == |dotted| + |JAVA_SUFFIX| && r[|dotted|..] == JAVA_SUFFIX
    ensures forall i :: 0 <= i < |dotted| ==>
      r[i] == if dotted[i] == '.' then '/' else dotted[i]
  {
    ReplaceCharPointwise(dotted, '.', '/');
    ReplaceAll(dotted, ".", "/") + JAVA_SUFFIX
  }

  datatype Mapping = Mapping(fullyQualifiedClassName: string) {

    /** The simple name: what follows the last dot. */
    function ClassName(): string {
      SubstringAfterLast(fullyQualifiedClassName, '.')
    }

    /** Where the class used to live: the legacy package. */
    function OldFQName(): string {
      LEGACY_PACKAGE + ClassName()
    }

    function OldJavaFileName(): string {
      LEGACY_DIRECTORY + ClassName() + JAVA_SUFFIX
    }

    function NewFQName(): string {
      fullyQualifiedClassName
    }

    function NewJavaFileName(): string {
      JavaFileName(fullyQualifiedClassName)
    }

    /** The rule would rename the class to itself. */
    predicate IsIdentity() {
      NewFQName() == OldFQName()
    }
  }

  // ---------------------------------------------------------------------

  /** Replacing a character that does not occur changes nothing. */
  lemma ReplaceCharAbsent(s: string, a: char, b: char)
    requires a !in s
    ensures ReplaceAll(s, [a], [b]) == s
  {
    ReplaceCharPointwise(s, a, b);
  }

  /** Dots before the first one are kept, the first becomes a slash. */
  lemma DotToSlash(x: string, y: string)
    requires '.' !in x
    ensures ReplaceAll(x + "." + y, ".", "/") == x + "/" + ReplaceAll(y, ".", "/")
  {
    ReplaceCharConcat(x + ".", y, '.', "/");
    ReplaceCharConcat(x, ".", '.', "/");
    ReplaceCharAbsent(x, '.', '/');
    assert ReplaceAll(".", ".", "/") == "/" + ReplaceAll([], ".", "/");
  }

  /** Two dot-free segments joined by a dot become joined by a slash. */
  lemma TwoSegments(x: string, y: string)
    requires '.' !in x && '.' !in y
    ensures ReplaceAll(x + "." + y, ".", "/") == x + "/" + y
  {
    DotToSlash(x, y);
    ReplaceCharAbsent(y, '.', '/');
  }

  /** Three dot-terminated segments become three slash-terminated ones. */
  lemma DotsToSlashes(a: string, b: string, c: string)
    requires '.' !in a && '.' !in b && '.' !in c
    ensures ReplaceAll(a + "." + (b + "." + (c + ".")), ".", "/") == a + "/" + (b + "/" + (c + "/"))
  {
    DotToSlash(a, b + "." + (c + "."));
    DotToSlash(b, c + ".");
    DotToSlash(c, "");
    assert c + "." + "" == c + ".";
    assert c + "/" + [] == c + "/";
  }

  // The worked examples below name their strings by segments: the literals
  // are pinned by `requires` clauses on parameters instead of written into
  // the `ensures`.  Proofs about `replace` and `split` then work segment by
  // segment through the general lemmas, instead of unfolding the recursive
  // definitions over every character of a long literal, which the verifier
  // cannot do within its resource limit.

  /** The legacy package is the three segments `net`, `minecraft` and
      `server`, each followed by a dot ... */
  lemma LegacyPackageSegments(a: string, b: string, c: string)
    requires a == "net" && b == "minecraft" && c == "server"
    ensures LEGACY_PACKAGE == a + "." + b + "." + c + "."
    ensures LEGACY_PACKAGE == a + "." + (b + "." + (c + "."))
  {
  }

  /** ... and the legacy directory is the same segments, each followed by a
      slash. */
  lemma LegacyDirectorySegments(a: string, b: string, c: string)
    requires a == "net" && b == "minecraft" && c == "server"
    ensures LEGACY_DIRECTORY == a + "/" + (b + "/" + (c + "/"))
  {
  }

  /** DotsToSlashes for names given whole, followed by any text. */
  lemma SegmentsPath(dotted: string, path: string, a: string, b: string, c: string, y: string)
    requires '.' !in a && '.' !in b && '.' !in c
    requires dotted == a + "." + (b + "." + (c + "."))
    requires path == a + "/" + (b + "/" + (c + "/"))
    ensures ReplaceAll(dotted + y, ".", "/") == path + ReplaceAll(y, ".", "/")
  {
    ReplaceCharConcat(dotted, y, '.', "/");
    DotsToSlashes(a, b, c);
  }

  /** A name inside the legacy package maps to a path inside the legacy
      directory: the package and the directory name the same place. */
  lemma LegacyPackagePath(y: string)
    ensures ReplaceAll(LEGACY_PACKAGE + y, ".", "/") == LEGACY_DIRECTORY + ReplaceAll(y, ".", "/")
  {
    var a, b, c := "net", "minecraft", "server";
    LegacyPackageSegments(a, b, c);
    LegacyDirectorySegments(a, b, c);
    SegmentsPath(LEGACY_PACKAGE, LEGACY_DIRECTORY, a, b, c, y);
  }

  /** Both file names of a rule are the source files of its two dotted
      names: the old path is the legacy directory and the simple name, the
      new path follows the new package. */
  lemma FileNamesFollowNames(m: Mapping)
    ensures m.OldJavaFileName() == JavaFileName(m.OldFQName())
    ensures m.NewJavaFileName() == JavaFileName(m.NewFQName())
  {
    var cn := m.ClassName();
    LegacyPackagePath(cn);
    ReplaceCharAbsent(cn, '.', '/');
  }

  /** A rule is an identity rename exactly when its class already lives
      directly in the legacy package (no further dot after the prefix). */
  lemma IdentityIff(m: Mapping)
    ensures m.IsIdentity() <==>
      LEGACY_PACKAGE <= m.fullyQualifiedClassName
      && '.' !in m.fullyQualifiedClassName[|LEGACY_PACKAGE|..]
  {
    var fq := m.fullyQualifiedClassName;
    if LEGACY_PACKAGE <= fq && '.' !in fq[|LEGACY_PACKAGE|..] {
      var rest := fq[|LEGACY_PACKAGE|..];
      assert fq == "net.minecraft.server" + "." + rest;
      SubstringAfterLastOf("net.minecraft.server", '.', rest);
    }
  }

  /** The dotted-to-path conversion is injective on names without slashes. */
  lemma JavaFileNameInjective(a: string, b: string)
    requires '/' !in a && '/' !in b
    requires JavaFileName(a) == JavaFileName(b)
    ensures a == b
  {
    var fa, fb := JavaFileName(a), JavaFileName(b);
    assert |a| == |b|;
    forall i | 0 <= i < |a|
      ensures a[i] == b[i]
    {
      assert fa[i] == fb[i];
    }
  }

  /** A rule that is kept (not an identity rename) and whose new name holds
      no slash also renames its source file. */
  lemma RenameMovesFile(m: Mapping)
    requires '/' !in m.fullyQualifiedClassName
    requires !m.IsIdentity()
    ensures m.NewJavaFileName() != m.OldJavaFileName()
  {
    var fq, cn := m.fullyQualifiedClassName, m.ClassName();
    assert '/' !in m.OldFQName() by {
      assert cn == fq[|fq| - |cn|..];
      assert '/' !in LEGACY_PACKAGE;
    }
    if m.NewJavaFileName() == m.OldJavaFileName() {
      FileNamesFollowNames(m);
      JavaFileNameInjective(m.NewFQName(), m.OldFQName());
      assert false;
    }
  }

  /** The worked example: `WorldServer` moved from the legacy package into
      its `level` sub-package (the names given by their segments). */
  lemma WorldServerExample(fq: string, d: string, e: string)
    requires d == "level" && e == "WorldServer"
    requires fq == LEGACY_PACKAGE + d + "." + e
    ensures var m := Mapping(fq);
      m.ClassName() == e
      && m.OldFQName() == LEGACY_PACKAGE + e
      && m.OldJavaFileName() == LEGACY_DIRECTORY + e + JAVA_SUFFIX
      && m.NewJavaFileName() == LEGACY_DIRECTORY + d + "/" + e + JAVA_SUFFIX
      && !m.IsIdentity()
  {
    WorldServerClassName(fq, d, e);
    WorldServerNewPath(fq, d, e);
  }

  lemma WorldServerClassName(fq: string, d: string, e: string)
    requires d == "level" && e == "WorldServer"
    requires fq == LEGACY_PACKAGE + d + "." + e
    ensures Mapping(fq).ClassName() == e
    ensures Mapping(fq).OldFQName() != fq
  {
    assert fq == LEGACY_PACKAGE + d + "." + e;
    SubstringAfterLastOf(LEGACY_PACKAGE + d, '.', e);
    assert |LEGACY_PACKAGE + e| < |fq|;
  }

  lemma WorldServerNewPath(fq: string, d: string, e: string)
    requires d == "level" && e == "WorldServer"
    requires fq == LEGACY_PACKAGE + d + "." + e
    ensures Mapping(fq).NewJavaFileName() == LEGACY_DIRECTORY + d + "/" + e + JAVA_SUFFIX
  {
    assert fq == LEGACY_PACKAGE + (d + "." + e);
    LegacyPackagePath(d + "." + e);
    TwoSegments(d, e);
  }
}
