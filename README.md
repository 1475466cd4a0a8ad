# sfDoctrineBuildModelTask: the base-class annotation core

The `doctrine:build-model` task of the Doctrine plugin generates model classes
from a YAML schema. It then rewrites each generated base class: it documents
the class's magic accessors with `@method` lines and fills in its
`@subpackage`. This project models that rewriting as a string transformation
and proves what it does.

- `text.dfy` (`Text`): the PHP string primitives the build-model code relies on.
  - `str_replace` with one search string (`Replace`: leftmost, non-overlapping
    occurrences; an empty search string changes nothing).
  - `str_replace` with arrays of search and replacement strings (`ReplaceAll`:
    each pair applied to the whole text in turn).
  - `implode` (`Join`), `sprintf("%-Ns")` (`PadRight`), `strtolower`
    (`ToLower`), PHP's `empty` on strings (`PhpEmpty`).
  - `Split`, which behaves like `explode`. The build-model code never calls
    `explode`: `Split` is a specification device that states where
    `str_replace` puts its replacements (`Text.ReplaceIsJoinOfSplit`).
- `property_scan.dfy` (`PropertyScan`): the left-to-right, non-overlapping scan
  of `preg_match_all('/@property (\w+) \$(\w+)/', ..., PREG_SET_ORDER)`.
- `properties.dfy` (`Properties`): the insertion-ordered `$properties` array,
  filled in a loop (`CollectProperties`), and the column widths `$typePad` and
  `$namePad`.
- `method_docs.dfy` (`MethodDocs`): the getter and setter `@method` lines,
  built in a loop (`BuildAccessorLines`), and their column layout.
- `build_model_task.dfy` (`BuildModelTask`):
  - `getSubPackageName` and the base-class path;
  - the whole annotation of one base class (`AnnotateBaseClass`, specified by
    `Annotated`);
  - the default token table used to clean up generated files, and how it
    interacts with the annotation.

`sfInflector::camelize` is a function-valued parameter about which nothing is
assumed. `PHP_EOL` is the parameter `eol`. The values read from
`properties.ini` and the builder options are parameters too.

The accessor column is padded to the longest RAW property name plus 2.
Line 97 camelizes the values of `$properties` (the types), and `array_keys`
then returns its keys, the uncamelized names, so the `camelize` call has no
effect on the width (`Properties.NamePad`).

The doc comment of `getSubPackageName` gives "\model\pim\base" for the PIM
plugin, but the code builds "model\pim\base", with no leading backslash. The
model follows the code (`BuildModelTask.SubPackageNameOfPimPlugin`).

Line 110 inserts the block after every occurrence of the last match's text,
not only after that declaration (`BuildModelTask.InsertionAfterEveryOccurrence`).
When the last match's text is a prefix of an earlier, longer declaration, the
block lands inside it. For example, if the last match is
`@property integer $id` and an earlier one is `@property integer $id_parent`,
the earlier line becomes `@property integer $id<block>_parent`.

## Model

All source cells refer to `lib/plugins/sfDoctrinePlugin/lib/task/sfDoctrineBuildModelTask.class.php`.

| member | source | states |
|---|---|---|
| PropertyScan.MatchAtDeclares | lib/plugins/sfDoctrinePlugin/lib/task/sfDoctrineBuildModelTask.class.php:90 | A match at a position is the text "@property " + type + " $" + name there, with type and name non-empty word-character runs and the name run maximal (`\w+` is greedy). |
| PropertyScan.MatchAtComplete | lib/plugins/sfDoctrinePlugin/lib/task/sfDoctrineBuildModelTask.class.php:90 | Wherever the text declares a property (tag, word run, " $", maximal word run), the scanner finds a match at that position. |
| PropertyScan.ScanFromSound | lib/plugins/sfDoctrinePlugin/lib/task/sfDoctrineBuildModelTask.class.php:90 | Every match the scan returns is a real match at its position, and each later match starts after the previous one ends (non-overlapping, left to right). |
| PropertyScan.ScanFromComplete | lib/plugins/sfDoctrinePlugin/lib/task/sfDoctrineBuildModelTask.class.php:90 | The scan misses nothing: no match starts before the first returned match, between two consecutive ones, or after the last one. |
| PropertyScan.ScanEmptyIff | lib/plugins/sfDoctrinePlugin/lib/task/sfDoctrineBuildModelTask.class.php:90 | `preg_match_all` finds nothing exactly when no position of the text starts a match. |
| PropertyScan.LastMatch | lib/plugins/sfDoctrinePlugin/lib/task/sfDoctrineBuildModelTask.class.php:90-94 | The last match (`$match` after the loop) is a real, non-empty match of the text. |
| Properties.Put | lib/plugins/sfDoctrinePlugin/lib/task/sfDoctrineBuildModelTask.class.php:93 | Assigning a key keeps keys distinct; an existing key keeps its place and takes the new type; a new key is appended. |
| Properties.CollectProperties | lib/plugins/sfDoctrinePlugin/lib/task/sfDoctrineBuildModelTask.class.php:91-94 | The loop's array equals `Collected` of all matches. |
| Properties.CollectedNames | lib/plugins/sfDoctrinePlugin/lib/task/sfDoctrineBuildModelTask.class.php:91-94 | The array has an entry for a name if and only if some match captured that name. |
| Properties.CollectedTypes | lib/plugins/sfDoctrinePlugin/lib/task/sfDoctrineBuildModelTask.class.php:91-94 | Each entry's type is the type of the LAST match with that name. |
| Properties.CollectedOrder | lib/plugins/sfDoctrinePlugin/lib/task/sfDoctrineBuildModelTask.class.php:91-94 | The entries are ordered by the position where each name was FIRST matched. |
| Properties.PutKeepsFirstOrder | lib/plugins/sfDoctrinePlugin/lib/task/sfDoctrineBuildModelTask.class.php:93 | One assignment preserves first-appearance order. |
| Properties.CollectedNonEmpty | lib/plugins/sfDoctrinePlugin/lib/task/sfDoctrineBuildModelTask.class.php:90-94 | A scan with at least one match gives at least one property. |
| Properties.TypePad | lib/plugins/sfDoctrinePlugin/lib/task/sfDoctrineBuildModelTask.class.php:96 | `$typePad` is at least the length of every type and of the model name, and equals one of them. |
| Properties.NamePad | lib/plugins/sfDoctrinePlugin/lib/task/sfDoctrineBuildModelTask.class.php:97 | `$namePad` is at least the length of every raw property name and equals one of them. |
| MethodDocs.MethodLineColumns | lib/plugins/sfDoctrinePlugin/lib/task/sfDoctrineBuildModelTask.class.php:105-106 | A line is "@method ", the type text space-padded to max(its length, typePad), a space, the verb, the accessor space-padded to max(its length, namePad + 2), then the description; `%-Ns` never truncates. |
| MethodDocs.MethodLineEnding | lib/plugins/sfDoctrinePlugin/lib/task/sfDoctrineBuildModelTask.class.php:103-106 | A line ends in "collection" if and only if the type is `Doctrine_Collection`, and in "value" if and only if it is not. |
| MethodDocs.LinesOfAppended | lib/plugins/sfDoctrinePlugin/lib/task/sfDoctrineBuildModelTask.class.php:105-106 | One more property appends exactly its getter line and its setter line. |
| MethodDocs.BuildAccessorLines | lib/plugins/sfDoctrinePlugin/lib/task/sfDoctrineBuildModelTask.class.php:98-107 | The loop produces, in map order, the getter line and the setter line of every property. |
| MethodDocs.GetterDocuments | lib/plugins/sfDoctrinePlugin/lib/task/sfDoctrineBuildModelTask.class.php:105 | A getter line has the property type in its type column, "get", the camelized accessor, "Returns ...", and the right ending. |
| MethodDocs.SetterDocuments | lib/plugins/sfDoctrinePlugin/lib/task/sfDoctrineBuildModelTask.class.php:106 | A setter line has the model name in its type column, "set", the camelized accessor, "Sets ...", and the property's ending. |
| MethodDocs.GettersDocument | lib/plugins/sfDoctrinePlugin/lib/task/sfDoctrineBuildModelTask.class.php:101-105 | Every getter line documents its property. |
| MethodDocs.SettersDocument | lib/plugins/sfDoctrinePlugin/lib/task/sfDoctrineBuildModelTask.class.php:101-106 | Every setter line documents its property. |
| MethodDocs.AccessorBlockLayout | lib/plugins/sfDoctrinePlugin/lib/task/sfDoctrineBuildModelTask.class.php:96-110 | The block is all getters then all setters, as many of each as there are distinct names; every type column is exactly `$typePad` wide and every line documents its property. |
| BuildModelTask.DocBlockReadsBack | lib/plugins/sfDoctrinePlugin/lib/task/sfDoctrineBuildModelTask.class.php:110 | Provided `PHP_EOL` is non-empty and no accessor line holds its first character, the inserted text, cut at each `PHP_EOL . ' * '`, gives back "", "" and the accessor lines: an empty doc line, then one doc line per accessor line. |
| BuildModelTask.InsertionAfterEveryOccurrence | lib/plugins/sfDoctrinePlugin/lib/task/sfDoctrineBuildModelTask.class.php:109-110 | The code is its pieces joined by the last match's text m, with no piece containing m; the result joins the same pieces with m + block. So the block follows every occurrence of m, and removing the blocks restores the original. |
| BuildModelTask.AnnotateBaseClass | lib/plugins/sfDoctrinePlugin/lib/task/sfDoctrineBuildModelTask.class.php:90-119 | The file is rewritten if and only if the scan finds a match; otherwise the text is unchanged; the result is `Annotated` of the text. |
| BuildModelTask.SubstitutionLeavesNoToken | lib/plugins/sfDoctrinePlugin/lib/task/sfDoctrineBuildModelTask.class.php:113-116 | Replacing "##SUBPACKAGE##" by a replacement that cannot re-form it leaves no token behind. |
| BuildModelTask.AnnotatedHasNoSubpackageToken | lib/plugins/sfDoctrinePlugin/lib/task/sfDoctrineBuildModelTask.class.php:110-116 | An annotated base class contains no "##SUBPACKAGE##", whatever the model's package. |
| BuildModelTask.SubPackageNameInert | lib/plugins/sfDoctrinePlugin/lib/task/sfDoctrineBuildModelTask.class.php:113-116 | For every package, the sub-package name cannot form "##SUBPACKAGE##" with the text around it: it starts with 'm', ends with 'e' and has no 'S'. |
| BuildModelTask.PackagePrefix | lib/plugins/sfDoctrinePlugin/lib/task/sfDoctrineBuildModelTask.class.php:162 | The plugin name is the text before the first '.', and "" when the package has no '.' (`strpos` is false). |
| BuildModelTask.PackagePrefixOfPlugin | lib/plugins/sfDoctrinePlugin/lib/task/sfDoctrineBuildModelTask.class.php:162 | A package "plugin.rest" with no '.' in plugin yields exactly plugin. |
| BuildModelTask.SubPackageName | lib/plugins/sfDoctrinePlugin/lib/task/sfDoctrineBuildModelTask.class.php:161-172 | The result is "model\base" if and only if the stripped plugin name is PHP-empty ("" or "0"); otherwise it is "model\" + the lower-cased stripped name + "\base". |
| BuildModelTask.SubPackageNameOfModule | lib/plugins/sfDoctrinePlugin/lib/task/sfDoctrineBuildModelTask.class.php:164-167 | A non-empty module name m gives exactly "model\" + strtolower(m) + "\base". |
| BuildModelTask.SubPackageNameOfPimPlugin | lib/plugins/sfDoctrinePlugin/lib/task/sfDoctrineBuildModelTask.class.php:154-172 | The package "orangehrmPimPlugin.lib.model.doctrine" gives "model\pim\base". |
| BuildModelTask.BaseFilePath | lib/plugins/sfDoctrinePlugin/lib/task/sfDoctrineBuildModelTask.class.php:86 | The path is the models path, then "/<plugin>" when the model has a package and nothing otherwise, then "/<base dir>/Base<model><suffix>"; the length clause leaves no room for anything else. |
| BuildModelTask.DefaultTokens | lib/plugins/sfDoctrinePlugin/lib/task/sfDoctrineBuildModelTask.class.php:124-130 | Five pairs with non-empty search strings, in order; the second is "##SUBPACKAGE##" => "model". |
| BuildModelTask.DefaultProjectNameInert | lib/plugins/sfDoctrinePlugin/lib/task/sfDoctrineBuildModelTask.class.php:125-126 | The default project name "symfony" cannot form "##SUBPACKAGE##". |
| BuildModelTask.DefaultSubpackageIgnored | lib/plugins/sfDoctrinePlugin/lib/task/sfDoctrineBuildModelTask.class.php:124-130 | On text without "##SUBPACKAGE##", the token table gives the same result with or without its "model" pair. |
| BuildModelTask.CleanupKeepsPluginSubpackage | lib/plugins/sfDoctrinePlugin/lib/task/sfDoctrineBuildModelTask.class.php:113-139 | Cleaning an annotated base class with the default tokens gives the same result as without the "##SUBPACKAGE##" => "model" pair: the plugin's sub-package stays. |
| Text.IndexOf | lib/plugins/sfDoctrinePlugin/lib/task/sfDoctrineBuildModelTask.class.php:162 | `strpos` returns the first occurrence, and nothing exactly when the text does not contain the search string. |
| Text.ReplaceAbsent | lib/plugins/sfDoctrinePlugin/lib/task/sfDoctrineBuildModelTask.class.php:116 | `str_replace` with a search string that does not occur leaves the text unchanged. |
| Text.ReplaceIsJoinOfSplit | lib/plugins/sfDoctrinePlugin/lib/task/sfDoctrineBuildModelTask.class.php:110 | `str_replace(m, r, s)` puts r between the pieces `Split` cuts at the leftmost, non-overlapping occurrences of m (`implode(r, Split(s, m))`). |
| Text.SplitJoin | lib/plugins/sfDoctrinePlugin/lib/task/sfDoctrineBuildModelTask.class.php:110 | Specification device (the code has no `explode`): joining the pieces of s cut at m with m gives back s, so the pieces used to describe line 110 cover the whole text. |
| Text.SplitOfJoin | lib/plugins/sfDoctrinePlugin/lib/task/sfDoctrineBuildModelTask.class.php:110 | Specification device: cutting `implode(sep, parts)` at sep gives back the parts when none holds the first character of sep; used to read the inserted block back. |
| Text.SplitPiecesFree | lib/plugins/sfDoctrinePlugin/lib/task/sfDoctrineBuildModelTask.class.php:110 | Specification device: no piece of s cut at m contains m, so line 110 inserts at exactly the occurrences between pieces. |
| Text.ReplaceLeavesNone | lib/plugins/sfDoctrinePlugin/lib/task/sfDoctrineBuildModelTask.class.php:116 | A replacement that cannot re-form the search string leaves no occurrence of it. |
| Text.ReplaceIdempotent | lib/plugins/sfDoctrinePlugin/lib/task/sfDoctrineBuildModelTask.class.php:116 | Under the same condition, replacing twice is replacing once. |
| Text.ReplaceKeepsAbsent | lib/plugins/sfDoctrinePlugin/lib/task/sfDoctrineBuildModelTask.class.php:125-126 | Any `str_replace` whose replacement cannot form token t with the text around it brings in no t when the text had none. |
| Text.ReplaceAllSkip | lib/plugins/sfDoctrinePlugin/lib/task/sfDoctrineBuildModelTask.class.php:124-130 | A pair whose search string is absent when its turn comes can be dropped from the ordered table. |
| Text.PadRightLayout | lib/plugins/sfDoctrinePlugin/lib/task/sfDoctrineBuildModelTask.class.php:105-106 | `%-Ns` keeps the text, then adds spaces up to N, and never truncates. |
| Text.Replace | lib/plugins/sfDoctrinePlugin/lib/task/sfDoctrineBuildModelTask.class.php:110 | `str_replace` with one search string: leftmost, non-overlapping occurrences; specified by `Text.ReplaceIsJoinOfSplit`, `Text.ReplaceAbsent`, `Text.ReplaceLeavesNone`, `Text.ReplaceKeepsAbsent` and `Text.ReplaceIdempotent`. |
| Text.ReplaceAll | lib/plugins/sfDoctrinePlugin/lib/task/sfDoctrineBuildModelTask.class.php:116 | `str_replace` with arrays: each pair applied to the whole text in turn; specified by `Text.ReplaceAllAbsent` and `Text.ReplaceAllSkip`. |
| Text.ReplaceAllAbsent | lib/plugins/sfDoctrinePlugin/lib/task/sfDoctrineBuildModelTask.class.php:116 | Ordered replacement with none of the search strings present leaves the text unchanged. |
| Text.InertReplacement | lib/plugins/sfDoctrinePlugin/lib/task/sfDoctrineBuildModelTask.class.php:116 | Condition under which a replacement cannot form the token with its neighbours: the token's ends are missing from the replacement, or the replacement's ends are missing from the token; either way the token does not occur inside the replacement nor the replacement inside the token. Used by `Text.NoStraddle`. |
| Text.NoStraddle | lib/plugins/sfDoctrinePlugin/lib/task/sfDoctrineBuildModelTask.class.php:116 | Under `InertReplacement`, no occurrence of the token in a + rep + b overlaps rep. |
| PropertyScan.MatchAt | lib/plugins/sfDoctrinePlugin/lib/task/sfDoctrineBuildModelTask.class.php:90 | The match of the pattern at one position, if any: it starts there, ends within the text and its text is the slice it covers; characterised by `PropertyScan.MatchAtDeclares` and `PropertyScan.MatchAtComplete`. |
| PropertyScan.Scan | lib/plugins/sfDoctrinePlugin/lib/task/sfDoctrineBuildModelTask.class.php:90 | `preg_match_all` with PREG_SET_ORDER; characterised by `PropertyScan.ScanFromSound`, `PropertyScan.ScanFromComplete` and `PropertyScan.ScanEmptyIff`. |
| Properties.Collected | lib/plugins/sfDoctrinePlugin/lib/task/sfDoctrineBuildModelTask.class.php:91-94 | The `$properties` array after one assignment per match; keys are distinct (ensures), characterised by `Properties.CollectedNames`, `Properties.CollectedTypes` and `Properties.CollectedOrder`. |
| Properties.AppendKeepsOrder | lib/plugins/sfDoctrinePlugin/lib/task/sfDoctrineBuildModelTask.class.php:93 | Appending a key not seen before keeps first-appearance order. |
| Properties.PutExistingKeepsOrder | lib/plugins/sfDoctrinePlugin/lib/task/sfDoctrineBuildModelTask.class.php:93 | Re-assigning an existing key keeps first-appearance order. |
| MethodDocs.GetterLine | lib/plugins/sfDoctrinePlugin/lib/task/sfDoctrineBuildModelTask.class.php:105 | The getter line of one property; specified by `MethodDocs.GetterDocuments`, `MethodDocs.MethodLineColumns` and `MethodDocs.MethodLineEnding`. |
| MethodDocs.SetterLine | lib/plugins/sfDoctrinePlugin/lib/task/sfDoctrineBuildModelTask.class.php:106 | The setter line of one property; specified by `MethodDocs.SetterDocuments`, `MethodDocs.MethodLineColumns` and `MethodDocs.MethodLineEnding`. |
| BuildModelTask.DocBlock | lib/plugins/sfDoctrinePlugin/lib/task/sfDoctrineBuildModelTask.class.php:110 | The text put after the search string; specified by `BuildModelTask.DocBlockReadsBack`. |
| BuildModelTask.WithAccessorDocs | lib/plugins/sfDoctrinePlugin/lib/task/sfDoctrineBuildModelTask.class.php:109-110 | `$code` after line 110; specified by `BuildModelTask.InsertionAfterEveryOccurrence`. |
| BuildModelTask.Annotated | lib/plugins/sfDoctrinePlugin/lib/task/sfDoctrineBuildModelTask.class.php:90-117 | What is written back for one base class; the specification of `BuildModelTask.AnnotateBaseClass`, with `BuildModelTask.AnnotatedHasNoSubpackageToken` and `BuildModelTask.CleanupKeepsPluginSubpackage` about it. |
| BuildModelTask.ModuleName | lib/plugins/sfDoctrinePlugin/lib/task/sfDoctrineBuildModelTask.class.php:164-165 | The plugin name with every "orangehrm", then every "Plugin", deleted; specified through `BuildModelTask.SubPackageName`, `BuildModelTask.SubPackageNameOfModule` and `BuildModelTask.SubPackageNameOfPimPlugin`. |
| BuildModelTask.SubPackageNameIsLowerCase | lib/plugins/sfDoctrinePlugin/lib/task/sfDoctrineBuildModelTask.class.php:167-169 | The sub-package name has no upper-case ASCII letter, for every package. |
| BuildModelTask.BaseFilePathInPlugin | lib/plugins/sfDoctrinePlugin/lib/task/sfDoctrineBuildModelTask.class.php:86 | For a package "plugin.rest" with no '.' in plugin, the path is exactly models path + "/" + plugin + "/" + base dir + "/Base" + model + suffix. |
| BuildModelTask.ProjectName | lib/plugins/sfDoctrinePlugin/lib/task/sfDoctrineBuildModelTask.class.php:125 | The project name from properties.ini, or "symfony"; used by `BuildModelTask.DefaultTokens` and `BuildModelTask.DefaultProjectNameInert`. |
| BuildModelTask.AuthorName | lib/plugins/sfDoctrinePlugin/lib/task/sfDoctrineBuildModelTask.class.php:127 | The author from properties.ini, or "Your name here"; the third pair of `BuildModelTask.DefaultTokens`. |
| Text.Join | lib/plugins/sfDoctrinePlugin/lib/task/sfDoctrineBuildModelTask.class.php:110 | `implode`: the parts with the separator between them; specified by `Text.SplitJoin`, `Text.SplitOfJoin` and `Text.ReplaceIsJoinOfSplit`. |
| Text.PadRight | lib/plugins/sfDoctrinePlugin/lib/task/sfDoctrineBuildModelTask.class.php:105-106 | `sprintf('%-Ns')`: its ensures gives the length max(|s|, N); `Text.PadRightLayout` gives the text followed by spaces. |
| Text.ToLower | lib/plugins/sfDoctrinePlugin/lib/task/sfDoctrineBuildModelTask.class.php:167 | `strtolower` on ASCII: same length, and each character lower-cased (ensures). |
| Text.MaxLength | lib/plugins/sfDoctrinePlugin/lib/task/sfDoctrineBuildModelTask.class.php:96-97 | `max(array_map('strlen', ...))` over a non-empty list: at least every length, and equal to one of them (ensures). |
| Text.PhpEmpty | lib/plugins/sfDoctrinePlugin/lib/task/sfDoctrineBuildModelTask.class.php:166 | PHP `empty` on a string: true of "" and "0"; used by the if-and-only-if of `BuildModelTask.SubPackageName`. |
| MethodDocs.MethodLine | lib/plugins/sfDoctrinePlugin/lib/task/sfDoctrineBuildModelTask.class.php:105-106 | The `sprintf` format shared by getter and setter lines; specified by `MethodDocs.MethodLineColumns` and `MethodDocs.MethodLineEnding`. |
| MethodDocs.Label | lib/plugins/sfDoctrinePlugin/lib/task/sfDoctrineBuildModelTask.class.php:103-106 | `$collection ? 'collection' : 'value'`; specified by `MethodDocs.MethodLineEnding`. |
| MethodDocs.Getters | lib/plugins/sfDoctrinePlugin/lib/task/sfDoctrineBuildModelTask.class.php:98-107 | `$getters` after the loop; `MethodDocs.BuildAccessorLines` computes it and `MethodDocs.GettersDocument` specifies each line. |
| MethodDocs.Setters | lib/plugins/sfDoctrinePlugin/lib/task/sfDoctrineBuildModelTask.class.php:98-107 | `$setters` after the loop; `MethodDocs.BuildAccessorLines` computes it and `MethodDocs.SettersDocument` specifies each line. |
| MethodDocs.AccessorLines | lib/plugins/sfDoctrinePlugin/lib/task/sfDoctrineBuildModelTask.class.php:110 | `array_merge($getters, $setters)` with the pads of lines 96-97; specified by `MethodDocs.AccessorBlockLayout`. |
| BuildModelTask.PluginName | lib/plugins/sfDoctrinePlugin/lib/task/sfDoctrineBuildModelTask.class.php:162 | `isset($package) ? substr(...) : ''`, as at line 86; specified by `BuildModelTask.PackagePrefix` and `BuildModelTask.PackagePrefixOfPlugin`. |

## Left out

- Reading and writing the base-class file (lines 87 and 119): the model works on the text; `AnnotateBaseClass` reports whether the text would be written back.
- The loop over the schema's models (line 81) and `sfYaml::load`: the model annotates one base class; the caller supplies the model name and its `package` entry.
- `prepareSchemaFile`, `Doctrine_Import_Schema` and the class generation (lines 74-78): foreign code that is not part of this model.
- `getCliConfig`, `getModelBuilderOptions`, `parse_ini_file` and `sfConfig` (lines 68-69, 123): configuration I/O; the models path, base directory, suffix, project name and author are parameters.
- `sfFinder` and the before/after diff of stub files (lines 71-72, 133, 137-138): filesystem traversal.
- `sfFilesystem::replaceTokens` (lines 134, 139) is not part of this model; the token table is applied with the ordered `str_replace` model (`ReplaceAll`), and the empty begin/end delimiters are taken to mean plain substitution.
- `configure`, `logSection` and `reloadAutoload` (lines 35-59, 66, 141): command-line plumbing.
- `sfInflector::camelize`: its code is not part of this model, so it is an arbitrary function parameter.
- Strings are sequences of characters, not bytes: `strlen`, `strtolower` and `\w` are modelled on ASCII only.
- BuildModelTask.DefaultSubpackageIgnored, BuildModelTask.CleanupKeepsPluginSubpackage: proved only when a project name from properties.ini cannot form "##SUBPACKAGE##" with the text around it (`InertReplacement`). Without that the property fails: the name "##SUB" turns "##PACKAGE##PACKAGE##" into the token, which the "model" pair then replaces.
