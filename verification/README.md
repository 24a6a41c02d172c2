# Checker Framework test utilities and subtraction node, in Dafny

This project models two pieces of the Checker Framework, a pluggable
type-checking framework for Java.

* **The test harness's text helpers** (`TestUtilities`). The harness compiles
  test files with a checker and compares the compiler's diagnostics with the
  expected ones. The helpers modelled here normalise one diagnostic
  (`diagnosticToString`) and collect the normalised diagnostics into an
  insertion-ordered set (`diagnosticsToStrings`). They also flatten an option
  map into javac arguments (`optionMapToList`), join file paths for messages
  (`summarizeSourceFiles`) and name the expected-output file of a test
  (`findComparisonFile`). Finally, they decide from a file's marker comments
  whether it is a test to run (`isJavaFile`, `isJavaTestFile`).
* **`NumericalSubtractionNode`**, the immutable dataflow CFG node for
  `left - right`. The model covers its construction check, operands,
  structural `equals`, `hashCode` and `toString`.

Files:

* `wrappers.dfy` (module `Wrappers`): `Option` stands for a Java reference
  that may be null, and `Result` stands for a call that may throw.
* `java_strings.dfy` (module `JavaStrings`): the `java.lang.String` operations
  the helpers use: `indexOf`, `contains`, `endsWith`, `trim` and `replace`.
  `indexOf`, `contains` and `trim` are given their meaning as contracts. For
  example, `Trim` keeps a slice of its input, and everything cut off is at
  most U+0020. `Replace`'s own contract covers only a string without the
  target; what it does with the occurrences is stated for its one use, the
  ".java" to ".out" rewrite, by `TestUtilities.ComparisonNameRoundTrip`.
* `test_utilities.dfy` (module `TestUtilities`): the helpers.
  `diagnosticToString` and `findComparisonFile` are straight-line string
  expressions in Java, so they are functions here. The Java loops are methods
  with loops, each proved against a specification function:
  * `diagnosticsToStrings` against `FirstOccurrences(Normalized(..))`;
  * `optionMapToList` against `Flattened`;
  * `summarizeSourceFiles` against `Join`;
  * `isJavaTestFile` against a quantified statement of the skip rule.

  Lemmas then prove what the Java code promises about those functions.
* `numerical_subtraction_node.dfy` (module `CfgNodes`): the node as a
  datatype over the operand node type `N`. The operands' own `equals` and
  `toString`, and `HashCodeUtils.hash` of the operand pair, are passed in as
  functions.

Inputs that come from outside Java code are parameters. These are the text of
a diagnostic (`Diagnostic.toString()`), a file's absolute path, name and parent,
whether it is a regular file (`File.isFile()`), its lines, and the two flags
`isJSR308Compiler` and `isAtLeast8Jvm`. In Java those two flags are computed by
a static initializer that runs the system compiler.

## Model

| member | source | states |
|---|---|---|
| `JavaStrings.IndexOf` | framework/src/org/checkerframework/framework/test/TestUtilities.java:216 | the result is -1 or an index where the pattern occurs, and the pattern occurs at no smaller index |
| `JavaStrings.Contains` | framework/src/org/checkerframework/framework/test/TestUtilities.java:203-206 | `contains` holds exactly when the pattern occurs at some index |
| `JavaStrings.Trim` | framework/src/org/checkerframework/framework/test/TestUtilities.java:200 | the result is a slice of the input, everything before and after the slice is at most U+0020, and the result is empty or begins and ends with a character above U+0020 |
| `JavaStrings.EndsWithSplit` | framework/src/org/checkerframework/framework/test/TestUtilities.java:205 | a string ends with a suffix iff it is some string followed by that suffix, as `String.endsWith` |
| `JavaStrings.Replace` | framework/src/org/checkerframework/framework/test/TestUtilities.java:266 | a string that does not contain the target comes back unchanged |
| `TestUtilities.IsJavaFileNames` | framework/src/org/checkerframework/framework/test/TestUtilities.java:161-163 | a file is a Java file iff it is a regular file and its name is some base name followed by ".java" |
| `TestUtilities.IsJavaTestFile` | framework/src/org/checkerframework/framework/test/TestUtilities.java:161-195 | a file is a test iff it is a regular `.java` file and no line holds "@skip-test", or "@non-308-skip-test" on a non-JSR 308 compiler, or "@below-java8-jdk-skip-test" below Java 8. Reading stops at the first such line: all lines are read for a test, and none are read for a non-Java file |
| `TestUtilities.SkipTestNotInNon308Marker` | framework/src/org/checkerframework/framework/test/TestUtilities.java:185-186 | "@non-308-skip-test" does not contain "@skip-test", so it does not count as the unconditional marker |
| `TestUtilities.SkipTestNotInBelowJava8Marker` | framework/src/org/checkerframework/framework/test/TestUtilities.java:185-187 | "@below-java8-jdk-skip-test" does not contain "@skip-test", so it does not count as the unconditional marker |
| `TestUtilities.ConditionalMarkersAreGated` | framework/src/org/checkerframework/framework/test/TestUtilities.java:183-190 | a line holding only "@non-308-skip-test" is a skip line iff the compiler is not a JSR 308 compiler; a line holding only "@below-java8-jdk-skip-test" is one iff the JVM is below Java 8 |
| `TestUtilities.FirstLine` | framework/src/org/checkerframework/framework/test/TestUtilities.java:214-219 | the result is a prefix of the text with no newline, and it is either the whole text or followed by a newline |
| `TestUtilities.MessageKeyIsOneLine` | framework/src/org/checkerframework/framework/test/TestUtilities.java:220-223 | cutting the path off a line with no newline leaves a string with no newline |
| `TestUtilities.MessageKeyStartsAtColon` | framework/src/org/checkerframework/framework/test/TestUtilities.java:220-221 | for a line containing ".java:", the kept part begins with the ':' of the first ".java:" and is the rest of the line with the trailing characters up to U+0020 removed, so its last character is above U+0020 |
| `TestUtilities.DiagnosticToString` | framework/src/org/checkerframework/framework/test/TestUtilities.java:197-228 | the result is null exactly when the trimmed text contains one of the three Xlint notes or ends with " declares unsafe vararg methods."; otherwise, outside "no message text" mode or when the text holds "unexpected Throwable", the result is the trimmed text |
| `TestUtilities.NoMsgTextIsOneLine` | framework/src/org/checkerframework/framework/test/TestUtilities.java:210-224 | in "no message text" mode, a kept diagnostic without "unexpected Throwable" becomes a string with no newline |
| `TestUtilities.NoMsgTextDropsPath` | framework/src/org/checkerframework/framework/test/TestUtilities.java:220-223 | in that mode, if the first line holds ".java:", the result begins with the ':' of its first ".java:" and is the rest of the line with the trailing characters up to U+0020 removed, so its last character is above U+0020; otherwise it is the first line |
| `TestUtilities.NormalizedMembers` | framework/src/org/checkerframework/framework/test/TestUtilities.java:234-239 | a string is among the non-null normalised diagnostics iff it is the normalisation of one of the inputs |
| `TestUtilities.FirstOccurrences` | framework/src/org/checkerframework/framework/test/TestUtilities.java:233-241 | the insertion-ordered set built from a sequence has no duplicates and holds exactly the sequence's elements |
| `TestUtilities.FirstOccurrencesInOrder` | framework/src/org/checkerframework/framework/test/TestUtilities.java:233-241 | the set lists its elements in the order of their first occurrence in the sequence |
| `TestUtilities.AddNextDiagnostic` | framework/src/org/checkerframework/framework/test/TestUtilities.java:234-238 | one more diagnostic adds its non-null normalisation to the set when not already present, and changes nothing otherwise |
| `TestUtilities.DiagnosticsToStringsMembers` | framework/src/org/checkerframework/framework/test/TestUtilities.java:230-242 | the collected set holds exactly the non-null normalisations of the inputs |
| `TestUtilities.DiagnosticsToStrings` | framework/src/org/checkerframework/framework/test/TestUtilities.java:230-242 | the loop's result is the insertion-ordered set of the non-null normalisations: no duplicates, every entry the normalisation of some input, entries in order of first occurrence |
| `TestUtilities.FlattenedLayout` | framework/src/org/checkerframework/framework/test/TestUtilities.java:270-282 | the argument list has one slot per entry plus one per non-null value; each entry's key sits at its position and is followed at once by its value when that is not null, then by the next entry |
| `TestUtilities.OptionMapToList` | framework/src/org/checkerframework/framework/test/TestUtilities.java:270-282 | the loop builds exactly that list: its length is entries plus non-null values, and the keys, each followed by its non-null value, appear in entry order |
| `TestUtilities.JoinLayout` | framework/src/org/checkerframework/framework/test/TestUtilities.java:244-258 | no paths give ""; otherwise the summary's length is the paths' total length plus two per separator (n - 1 of them), and it starts with the first path and ends with the last |
| `TestUtilities.SplitJoin` | framework/src/org/checkerframework/framework/test/TestUtilities.java:244-258 | when no path contains ", ", cutting the summary at each ", " gives back the paths, so the summary holds exactly n - 1 separators, none leading or trailing |
| `TestUtilities.SummarizeSourceFiles` | framework/src/org/checkerframework/framework/test/TestUtilities.java:244-258 | the loop with its `first` flag builds exactly the ", "-joined paths; it returns "" for no files, and the paths split back out when none contains ", " |
| `TestUtilities.FindComparisonFile` | framework/src/org/checkerframework/framework/test/TestUtilities.java:264-268 | the comparison file is in the test file's directory, and a name without ".java" is kept as it is |
| `TestUtilities.ComparisonNameRoundTrip` | framework/src/org/checkerframework/framework/test/TestUtilities.java:264-268 | for a name with no ".out" of its own, turning every ".out" of the comparison name back into ".java" gives the test file's name again: each ".java" became ".out" in place and nothing else changed |
| `TestUtilities.ComparisonNameHasNoJava` | framework/src/org/checkerframework/framework/test/TestUtilities.java:264-268 | no ".java" is left in the comparison file's name |
| `TestUtilities.ComparisonFileOfJavaFile` | framework/src/org/checkerframework/framework/test/TestUtilities.java:264-268 | the comparison file of "Name.java", where Name holds no ".java", is "Name.out" in the same directory |
| `CfgNodes.Create` | dataflow/src/org/checkerframework/dataflow/cfg/node/NumericalSubtractionNode.java:26-40 | construction succeeds iff the tree's kind is MINUS and otherwise fails with an assertion error; a built node is valid, and its tree and getters return exactly what the constructor was given |
| `CfgNodes.NumericalSubtractionNode.GetOperands` | dataflow/src/org/checkerframework/dataflow/cfg/node/NumericalSubtractionNode.java:72-78 | the operand list has exactly two elements, the left operand then the right |
| `CfgNodes.NumericalSubtractionNode.ToString` | dataflow/src/org/checkerframework/dataflow/cfg/node/NumericalSubtractionNode.java:52-55 | the rendering is '(' then the left operand's text, " - ", the right operand's text and ')', and nothing else |
| `CfgNodes.EqualsRejectsNonSubtraction` | dataflow/src/org/checkerframework/dataflow/cfg/node/NumericalSubtractionNode.java:58-61 | a node never equals null or an object that is not a NumericalSubtractionNode |
| `CfgNodes.EqualsComparesOperands` | dataflow/src/org/checkerframework/dataflow/cfg/node/NumericalSubtractionNode.java:62-64 | two subtraction nodes are equal iff their operand lists are equal element by element; changing either node's tree does not change the answer |
| `CfgNodes.EqualsIsEquivalence` | dataflow/src/org/checkerframework/dataflow/cfg/node/NumericalSubtractionNode.java:57-65 | when operand equality is reflexive, symmetric and transitive, so is node equality |
| `CfgNodes.HashCodeConsistentWithEquals` | dataflow/src/org/checkerframework/dataflow/cfg/node/NumericalSubtractionNode.java:67-70 | equal nodes have equal hash codes, provided the operand hash agrees with operand equality |
| `CfgNodes.HashCodeIgnoresTree` | dataflow/src/org/checkerframework/dataflow/cfg/node/NumericalSubtractionNode.java:67-70 | the hash code depends only on the two operands |

## Left out

- File-system traversal in `TestUtilities` is not modelled: directory listing and `File` I/O only. This covers `findNestedJavaTestFiles`, `findRelativeNestedJavaFiles`, `findJavaFilesPerDirectory`, `findJavaTestFilesInDirectory`, `getJavaFilesAsArgumentList`, `deeplyEnclosedJavaTestFiles` and `ensureDirectoryExists`.
- `getTestFile` and `findFilesInParent` are not modelled: they only construct `File` objects.
- The writers `writeLines`, `writeDiagnostics`, `writeTestConfiguration` and `writeJavacArguments` are not modelled: they only write to files.
- The static initializer is not modelled. It runs the system compiler and reads the JRE version; the two flags it sets are parameters.
- `testBooleanProperty` and `getShouldEmitDebugInfo` are not modelled: they read JVM system properties.
- `assertResultsAreValid` is not modelled: it is a JUnit assertion.
- `IsJavaTestFile`: the lines of the file are given. The model leaves out three things. It does not open the file, so the `FileNotFoundException` it would rethrow is absent. It does not split lines the way `Scanner` does. And the loop runs while lines remain instead of `hasNext()`: `hasNext()` also stops before trailing lines that hold only white space, but no such line can hold a marker, so the verdict is the same.
- `DiagnosticToString`: `Diagnostic.toString()` is a foreign call, so the diagnostic's text is given.
- Java strings are sequences of UTF-16 code units and Dafny strings are sequences of characters. Every character the helpers test for lies in ASCII, so the two agree here.
- `FindComparisonFile`: `getParent`, `getName` and the path that `new File(parent, name)` builds are not modelled; a file is its parent (null when absent) and its name.
- `Replace`: its contract says only that a string without the target is returned unchanged; the effect on the occurrences is proved for ".java" and ".out" alone, by `ComparisonNameRoundTrip` and `ComparisonNameHasNoJava`, not for every target and replacement. It also requires a non-empty target. Java's `replace` also accepts an empty target, but the only call passes ".java".
- `OptionMapToList`: the map is given as its entries in iteration order. Keys are never null in the model, although a `HashMap` allows one null key.
- `NumericalSubtractionNode.accept` is not modelled. `NodeVisitor` is not part of this model, and the method only dispatches to it.
- The node's type, which the constructor takes from `InternalUtils.typeOf(tree)`, is not part of this model.
- `HashCodeUtils.hash` is not part of this model. The node's hash code is that function applied to the two operands, passed in as a parameter.
- `Equals`: `instanceof` in Java also accepts instances of subclasses of NumericalSubtractionNode, which is not final; the model has no subclasses, so an object is a subtraction node or not one.
- `Create`: the Java constructor checks the tree kind with `assert`, which fails only when assertions are enabled. The model always fails on a tree that is not MINUS. With assertions disabled, Java would build the node anyway.
