/**
 * The string-processing core of the `doctrine:build-model` task
 * (`sfDoctrineBuildModelTask`): where a model's base class lives, the
 * `@subpackage` a model gets from its plugin, the annotation that documents
 * a generated base class with `@method` lines for its magic accessors, and
 * the default token table used to clean up generated files.
 */
module BuildModelTask {
  import opened Text
  import opened PropertyScan
  import opened Properties
  import opened MethodDocs

  const SubpackageToken: string := "##SUBPACKAGE##"

  // ---------------------------------------------------------------------
  // getSubPackageName and the base-class path
  // ---------------------------------------------------------------------

  /**
   * `substr($package, 0, strpos($package, '.'))`: the part before the first
   * dot. When there is no dot `strpos` gives `false`, which `substr` takes
   * as length 0.
   */
  function PackagePrefix(package: string): (r: string)
    ensures '.' !in r
    ensures Contains(package, ".") ==> |r| < |package| && package[..|r| + 1] == r + "."
    ensures !Contains(package, ".") ==> r == ""
  {
    match IndexOf(package, ".")
    case None => ""
    case Some(i) =>
      var r := package[..i];
      forall j | 0 <= j < i
        ensures r[j] != '.'
      {
        assert !OccursAt(package, ".", j);
        assert package[j..j + 1] == [package[j]];
      }
      assert package[i..i + 1] == ".";
      assert package[..i + 1] == r + package[i..i + 1];
      r
  }

  /** The plugin part of the schema's `package` entry, or "" when the model has none. */
  function PluginName(package: Option<string>): string
  {
    if package.Some? then PackagePrefix(package.value) else ""
  }

  /** `$modelName`: the plugin name with every "orangehrm", then every "Plugin", deleted. */
  function ModuleName(pluginName: string): string
  {
    Replace(Replace(pluginName, "orangehrm", ""), "Plugin", "")
  }

  /**
   * `getSubPackageName`: "model\base" when the module name is empty in
   * PHP's sense ("" or "0"), otherwise "model\<module name in lower case>\base".
   */
  function SubPackageName(package: Option<string>): (r: string)
    ensures |r| >= 10 && r[..6] == "model\\" && r[|r| - 5..] == "\\base"
    ensures r == "model\\base" <==> PhpEmpty(ModuleName(PluginName(package)))
    ensures !PhpEmpty(ModuleName(PluginName(package))) ==>
      |r| == 11 + |ModuleName(PluginName(package))| && r[6..|r| - 5] == ToLower(ModuleName(PluginName(package)))
  {
    var name := ModuleName(PluginName(package));
    if !PhpEmpty(name) then
      var r := "model\\" + ToLower(name) + "\\base";
      assert r[6..|r| - 5] == ToLower(name);
      r
    else "model\\base"
  }

  /** A package written "<plugin>.<rest>" belongs to the plugin named before its first dot. */
  lemma PackagePrefixOfPlugin(plugin: string, rest: string)
    requires '.' !in plugin
    ensures PackagePrefix(plugin + "." + rest) == plugin
  {
    var p := plugin + "." + rest;
    var r := PackagePrefix(p);
    assert p[|plugin|..|plugin| + 1] == ".";
    assert Contains(p, ".") by {
      assert OccursAt(p, ".", |plugin|);
    }
    assert (r + ".")[|r|] == '.';
    assert forall j :: 0 <= j < |r| ==> p[j] == r[j];
    assert forall j :: 0 <= j < |plugin| ==> p[j] == plugin[j];
    assert |r| == |plugin|;
    assert r == p[..|r|];
  }

  lemma OrangehrmLeadsPimPlugin()
    ensures IndexOf("orangehrmPimPlugin", "orangehrm") == Some(0)
  {
    assert OccursAt("orangehrmPimPlugin", "orangehrm", 0);
  }

  lemma NoOrangehrmInPimPlugin()
    ensures !Contains("PimPlugin", "orangehrm")
  {
    var tail := "PimPlugin";
    forall j | 0 <= j <= |tail|
      ensures !OccursAt(tail, "orangehrm", j)
    {
      if j == 0 {
        assert tail[0..9][0] == 'P';
      }
    }
  }

  lemma StripPluginFromPimPlugin()
    ensures Replace("PimPlugin", "Plugin", "") == "Pim"
  {
    var i := IndexOf("PimPlugin", "Plugin");
    assert OccursAt("PimPlugin", "Plugin", 3);
    assert i == Some(3) by {
      forall j | 0 <= j < 3
        ensures !OccursAt("PimPlugin", "Plugin", j)
      {
        assert "PimPlugin"[j..j + 6][3 - j] == 'P';
      }
    }
  }

  lemma StripOrangehrmFromPimPlugin()
    ensures Replace("orangehrmPimPlugin", "orangehrm", "") == "PimPlugin"
  {
    OrangehrmLeadsPimPlugin();
    NoOrangehrmInPimPlugin();
    ReplaceAbsent("PimPlugin", "orangehrm", "");
    assert "orangehrmPimPlugin"[9..] == "PimPlugin";
  }

  lemma PimPluginModuleName(package: Option<string>)
    requires package == Some("orangehrmPimPlugin.lib.model.doctrine")
    ensures ModuleName(PluginName(package)) == "Pim"
  {
    assert "orangehrmPimPlugin" + "." + "lib.model.doctrine" == package.value;
    PackagePrefixOfPlugin("orangehrmPimPlugin", "lib.model.doctrine");
    StripOrangehrmFromPimPlugin();
    StripPluginFromPimPlugin();
  }

  lemma LowerPim()
    ensures ToLower("Pim") == "pim"
  {
    var low := ToLower("Pim");
    assert low[0] == 'p';
    assert low[1] == 'i' && low[2] == 'm';
  }

  /**
   * The schema gives the OrangeHRM PIM plugin's models the package
   * "orangehrmPimPlugin.lib.model.doctrine"; they are documented under
   * model\pim\base.
   */
  lemma SubPackageNameOfPimPlugin(package: Option<string>)
    requires package == Some("orangehrmPimPlugin.lib.model.doctrine")
    ensures SubPackageName(package) == "model\\pim\\base"
  {
    PimPluginModuleName(package);
    LowerPim();
    SubPackageNameOfModule(package, "Pim");
    PimSubPackageText();
  }

  lemma PimSubPackageText()
    ensures "model\\" + "pim" + "\\base" == "model\\pim\\base"
  {
    var r := "model\\" + "pim" + "\\base";
    assert |r| == 14;
    assert r[5] == '\\' && r[6] == 'p' && r[7] == 'i' && r[8] == 'm' && r[9] == '\\';
  }

  /** A non-empty module name gives "model\<module name in lower case>\base". */
  lemma SubPackageNameOfModule(package: Option<string>, moduleName: string)
    requires ModuleName(PluginName(package)) == moduleName && !PhpEmpty(moduleName)
    ensures SubPackageName(package) == "model\\" + ToLower(moduleName) + "\\base"
  {
  }

  /**
   * `sprintf('%s%s/%s/Base%s%s', ...)`: the generated base class of `model`,
   * inside the plugin's directory when the model belongs to a package.
   */
  function BaseFilePath(modelsPath: string, package: Option<string>, baseDir: string, model: string,
                        suffix: string): (path: string)
    ensures |modelsPath| <= |path| && path[..|modelsPath|] == modelsPath
    ensures EndsWith(path, "/" + baseDir + "/Base" + model + suffix)
    ensures package.None? ==> path == modelsPath + "/" + baseDir + "/Base" + model + suffix
    ensures package.Some? ==>
      (&& |path| == |modelsPath| + 1 + |PluginName(package)| + |"/" + baseDir + "/Base" + model + suffix|
       && path[|modelsPath|..|modelsPath| + 1 + |PluginName(package)|] == "/" + PluginName(package))
  {
    var dir := if package.Some? then "/" + PackagePrefix(package.value) else "";
    var tail := "/" + baseDir + "/Base" + model + suffix;
    var path := modelsPath + dir + tail;
    assert path[|path| - |tail|..] == tail;
    assert path[|modelsPath|..|modelsPath| + |dir|] == dir;
    path
  }

  /** The sub-package name has no upper-case letter: "model", the lower-cased module name, "base". */
  lemma SubPackageNameIsLowerCase(package: Option<string>)
    ensures forall k :: 0 <= k < |SubPackageName(package)| ==> !('A' <= SubPackageName(package)[k] <= 'Z')
  {
    var r := SubPackageName(package);
    var name := ModuleName(PluginName(package));
    forall k | 0 <= k < |r|
      ensures !('A' <= r[k] <= 'Z')
    {
      if k < 6 {
        assert r[..6][k] == r[k];
      } else if k >= |r| - 5 {
        assert r[|r| - 5..][k - (|r| - 5)] == r[k];
      } else {
        assert r[6..|r| - 5][k - 6] == r[k];
      }
    }
  }

  /**
   * Whatever the package, the sub-package name is a safe replacement for
   * "##SUBPACKAGE##": it starts with 'm' and ends with 'e', neither of which
   * is in the token, and has no 'S', so the token cannot occur inside it.
   */
  lemma SubPackageNameInert(package: Option<string>)
    ensures InertReplacement(SubpackageToken, SubPackageName(package))
  {
    var r := SubPackageName(package);
    SubPackageNameIsLowerCase(package);
    assert r[..6][0] == r[0];
    assert r[|r| - 5..][4] == r[|r| - 1];
    LowerCaseIsInert(r);
  }

  /** A lower-case text from 'm' to 'e' cannot form "##SUBPACKAGE##" with its neighbours. */
  lemma LowerCaseIsInert(r: string)
    requires |r| > 0 && r[0] == 'm' && r[|r| - 1] == 'e'
    requires forall k :: 0 <= k < |r| ==> !('A' <= r[k] <= 'Z')
    ensures InertReplacement(SubpackageToken, r)
  {
    var t := SubpackageToken;
    forall j | 0 <= j <= |r|
      ensures !OccursAt(r, t, j)
    {
      if j + |t| <= |r| {
        assert r[j..j + |t|][2] == r[j + 2];
      }
    }
    assert ReplacementEdgesOutside(t, r);
  }

  /** A model of plugin `plugin` has its base class under "<models path>/<plugin>/<base dir>/". */
  lemma BaseFilePathInPlugin(modelsPath: string, plugin: string, rest: string, baseDir: string, model: string,
                             suffix: string)
    requires '.' !in plugin
    ensures BaseFilePath(modelsPath, Some(plugin + "." + rest), baseDir, model, suffix)
         == modelsPath + "/" + plugin + "/" + baseDir + "/Base" + model + suffix
  {
    PackagePrefixOfPlugin(plugin, rest);
  }

  // ---------------------------------------------------------------------
  // Annotating a generated base class
  // ---------------------------------------------------------------------

  /** `PHP_EOL.' * '.PHP_EOL.' * '.implode(PHP_EOL.' * ', $lines)`: the text put after the search string. */
  function DocBlock(lines: seq<string>, eol: string): string
  {
    var sep := eol + " * ";
    sep + sep + Join(lines, sep)
  }

  /**
   * The block is an empty doc-comment line followed by one doc-comment line
   * per accessor line: cut at each `PHP_EOL . ' * '` it gives back "", "" and
   * the lines, provided no line holds the first character of `PHP_EOL`.
   */
  lemma DocBlockReadsBack(lines: seq<string>, eol: string)
    requires |lines| > 0 && |eol| > 0
    requires forall k :: 0 <= k < |lines| ==> eol[0] !in lines[k]
    ensures Split(DocBlock(lines, eol), eol + " * ") == ["", ""] + lines
  {
    var sep := eol + " * ";
    forall k | 0 <= k < |lines|
      ensures sep[0] !in lines[k]
    {
      assert sep[0] == eol[0];
    }
    SplitOfLeadingSeparators(lines, sep);
  }

  /**
   * `$code` after line 110: the documentation block of the collected
   * properties put after every occurrence of the last match's text.
   */
  function WithAccessorDocs(code: string, ms: seq<Match>, model: string, eol: string,
                            camelize: string -> string): string
    requires ms != []
  {
    CollectedNonEmpty(ms);
    var search := ms[|ms| - 1].text;
    Replace(code, search, search + DocBlock(AccessorLines(Collected(ms), model, camelize), eol))
  }

  /**
   * What `execute` writes back for one model: when the base class declares
   * no property the text is not touched; otherwise the accessor block is
   * added and "##SUBPACKAGE##" replaced by the model's sub-package.
   */
  function Annotated(code: string, model: string, subPackage: string, eol: string,
                     camelize: string -> string): string
  {
    var ms := Scan(code);
    if ms == [] then code
    else ReplaceAll(WithAccessorDocs(code, ms, model, eol, camelize), [(SubpackageToken, subPackage)])
  }

  /**
   * Lines 90-117 of `execute` for one model whose base class reads `code`
   * and whose schema entry has `package`; `rewritten` tells whether the
   * file is written back.
   */
  method AnnotateBaseClass(code: string, model: string, package: Option<string>, eol: string,
                           camelize: string -> string)
    returns (result: string, rewritten: bool)
    ensures rewritten <==> Scan(code) != []
    ensures !rewritten ==> result == code
    ensures result == Annotated(code, model, SubPackageName(package), eol, camelize)
  {
    var subPackage := SubPackageName(package);
    var matches := Scan(code);
    result, rewritten := code, false;
    if matches != [] {
      var props := CollectProperties(matches);
      CollectedNonEmpty(matches);
      var typePad := TypePad(props, model);
      var namePad := NamePad(props);
      var getters, setters := BuildAccessorLines(props, model, typePad, namePad, camelize);
      var search := matches[|matches| - 1].text;
      result := Replace(result, search, search + DocBlock(getters + setters, eol));
      result := ReplaceAll(result, [(SubpackageToken, subPackage)]);
      rewritten := true;
    }
  }

  /**
   * The insertion in terms of `explode`: the text falls into two or more
   * pieces around the occurrences of the last match's text `m`, none of
   * which contains `m`; the original is those pieces joined by `m`, and the
   * result the same pieces joined by `m` followed by the block. So the block
   * follows EVERY occurrence of `m`, not only the last declaration, and
   * deleting the inserted blocks gives back the original text.
   */
  lemma InsertionAfterEveryOccurrence(code: string, model: string, eol: string, camelize: string -> string)
    requires Scan(code) != []
    ensures var ms := Scan(code);
      var m := LastMatch(code).text;
      var pieces := Split(code, m);
      && |pieces| >= 2
      && Join(pieces, m) == code
      && (forall k :: 0 <= k < |pieces| ==> !Contains(pieces[k], m))
      && (CollectedNonEmpty(ms);
          WithAccessorDocs(code, ms, model, eol, camelize)
            == Join(pieces, m + DocBlock(AccessorLines(Collected(ms), model, camelize), eol)))
  {
    var ms := Scan(code);
    var last := LastMatch(code);
    var m := last.text;
    assert last == ms[|ms| - 1];
    MatchAtDeclares(code, last.pos);
    assert |m| > 0;
    assert OccursAt(code, m, last.pos);
    SplitCount(code, m);
    SplitJoin(code, m);
    SplitPiecesFree(code, m);
    CollectedNonEmpty(ms);
    ReplaceIsJoinOfSplit(code, m, m + DocBlock(AccessorLines(Collected(ms), model, camelize), eol));
  }

  /** Line 116 leaves no "##SUBPACKAGE##" behind when the sub-package is a safe replacement. */
  lemma SubstitutionLeavesNoToken(text: string, subPackage: string)
    requires InertReplacement(SubpackageToken, subPackage)
    ensures !Contains(ReplaceAll(text, [(SubpackageToken, subPackage)]), SubpackageToken)
  {
    ReplaceLeavesNone(text, SubpackageToken, subPackage);
    assert ReplaceAll(text, [(SubpackageToken, subPackage)]) == Replace(text, SubpackageToken, subPackage);
  }

  /** An annotated base class has no "##SUBPACKAGE##" left, whatever the model's package. */
  lemma AnnotatedHasNoSubpackageToken(code: string, model: string, package: Option<string>, eol: string,
                                      camelize: string -> string)
    requires Scan(code) != []
    ensures !Contains(Annotated(code, model, SubPackageName(package), eol, camelize), SubpackageToken)
  {
    SubPackageNameInert(package);
    SubstitutionLeavesNoToken(WithAccessorDocs(code, Scan(code), model, eol, camelize), SubPackageName(package));
  }

  // ---------------------------------------------------------------------
  // The default token table (lines 123-130)
  // ---------------------------------------------------------------------

  /** `$properties['symfony']['name']`, or "symfony" when properties.ini has none. */
  function ProjectName(name: Option<string>): string
  {
    if name.Some? then name.value else "symfony"
  }

  /** `$properties['symfony']['author']`, or "Your name here". */
  function AuthorName(author: Option<string>): string
  {
    if author.Some? then author.value else "Your name here"
  }

  /** The tokens, in order, that clean up new stub classes and every base class. */
  function DefaultTokens(name: Option<string>, author: Option<string>): (tokens: seq<(string, string)>)
    ensures |tokens| == 5 && forall k :: 0 <= k < 5 ==> |tokens[k].0| > 0
    ensures tokens[1] == (SubpackageToken, "model")
  {
    [("##PACKAGE##", ProjectName(name)),
     (SubpackageToken, "model"),
     ("##NAME##", AuthorName(author)),
     (" <##EMAIL##>", ""),
     ("{\n\n}", "{\n}\n")]
  }

  /** The project name "symfony" used by default is a safe replacement for "##SUBPACKAGE##". */
  lemma DefaultProjectNameInert()
    ensures InertReplacement(SubpackageToken, "symfony")
  {
    var r := "symfony";
    forall j | 0 <= j <= |SubpackageToken|
      ensures !OccursAt(SubpackageToken, r, j)
    {
      if j + |r| <= |SubpackageToken| {
        assert SubpackageToken[j..j + |r|][0] == SubpackageToken[j];
      }
    }
  }

  /**
   * On text without "##SUBPACKAGE##" the default "model" pair does nothing:
   * "##PACKAGE##", replaced first, cannot bring the token in.
   */
  lemma DefaultSubpackageIgnored(text: string, name: Option<string>, author: Option<string>)
    requires !Contains(text, SubpackageToken)
    requires name.Some? ==> InertReplacement(SubpackageToken, name.value)
    ensures var tokens := DefaultTokens(name, author);
      ReplaceAll(text, tokens) == ReplaceAll(text, tokens[..1] + tokens[2..])
  {
    var tokens := DefaultTokens(name, author);
    if name.None? {
      DefaultProjectNameInert();
    }
    ReplaceKeepsAbsent(text, "##PACKAGE##", ProjectName(name), SubpackageToken);
    assert ReplaceAll(text, tokens[..1]) == Replace(text, "##PACKAGE##", ProjectName(name));
    ReplaceAllSkip(text, tokens, 1);
  }

  /**
   * Cleaning up an annotated base class with the default tokens gives the
   * same text as cleaning it up without the "##SUBPACKAGE##" => "model"
   * pair: the plugin's sub-package, put in first, is what stays.
   */
  lemma CleanupKeepsPluginSubpackage(code: string, model: string, package: Option<string>, eol: string,
                                     camelize: string -> string, name: Option<string>, author: Option<string>)
    requires Scan(code) != []
    requires name.Some? ==> InertReplacement(SubpackageToken, name.value)
    ensures var annotated := Annotated(code, model, SubPackageName(package), eol, camelize);
      var tokens := DefaultTokens(name, author);
      ReplaceAll(annotated, tokens) == ReplaceAll(annotated, tokens[..1] + tokens[2..])
  {
    AnnotatedHasNoSubpackageToken(code, model, package, eol, camelize);
    DefaultSubpackageIgnored(Annotated(code, model, SubPackageName(package), eol, camelize), name, author);
  }
}
