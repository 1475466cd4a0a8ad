/**
 * The `@method` documentation lines `execute` writes into a generated base
 * class: one getter and one setter per property, each laid out with
 * `sprintf('@method %-Ns %s%-Ms ...')`.
 */
module MethodDocs {
  import opened Text
  import opened Properties

  /** The type Doctrine gives to the many side of a relation. */
  const CollectionType: string := "Doctrine_Collection"

  function Label(typeName: string): string
  {
    if typeName == CollectionType then "collection" else "value"
  }

  /** The text after the accessor column: ` Returns the current record's "name" value`. */
  function Description(desc: string, name: string, ending: string): string
  {
    " " + desc + " the current record's \"" + name + "\" " + ending
  }

  /**
   * `sprintf('@method %-' . $typePad . 's %s%-' . ($namePad + 2) . 's <desc> the current record\'s "%s" %s',
   *          $typeText, $verb, $accessor, $name, $ending)`
   */
  function MethodLine(typeText: string, verb: string, accessor: string, desc: string, name: string,
                      ending: string, typePad: nat, namePad: nat): string
  {
    "@method " + PadRight(typeText, typePad) + " " + verb + PadRight(accessor, namePad + 2)
      + Description(desc, name, ending)
  }

  /** The getter line of property `p` (line 105). */
  function GetterLine(p: Property, typePad: nat, namePad: nat, camelize: string -> string): string
  {
    MethodLine(p.typeName, "get", camelize(p.name) + "()", "Returns", p.name, Label(p.typeName), typePad, namePad)
  }

  /** The setter line of property `p` (line 106): the model name takes the place of the type. */
  function SetterLine(p: Property, model: string, typePad: nat, namePad: nat, camelize: string -> string): string
  {
    MethodLine(model, "set", camelize(p.name) + "()", "Sets", p.name, Label(p.typeName), typePad, namePad)
  }

  function Max(a: int, b: int): int
  {
    if a >= b then a else b
  }

  predicate AllSpaces(s: string)
  {
    forall k :: 0 <= k < |s| ==> s[k] == ' '
  }

  /**
   * `line` is laid out in columns: "@method ", the type text padded with
   * spaces to `typeWidth` and one more space, the three-letter verb, the
   * accessor padded with spaces to `accessorWidth`, then `tail`.
   */
  predicate Columns(line: string, typeText: string, verb: string, accessor: string,
                    typeWidth: nat, accessorWidth: nat, tail: string)
  {
    && |typeText| <= typeWidth && |verb| == 3 && |accessor| <= accessorWidth
    && |line| == 12 + typeWidth + accessorWidth + |tail|
    && line[..8] == "@method "
    && line[8..8 + |typeText|] == typeText
    && AllSpaces(line[8 + |typeText|..9 + typeWidth])
    && line[9 + typeWidth..12 + typeWidth] == verb
    && line[12 + typeWidth..12 + typeWidth + |accessor|] == accessor
    && AllSpaces(line[12 + typeWidth + |accessor|..12 + typeWidth + accessorWidth])
    && line[12 + typeWidth + accessorWidth..] == tail
  }

  /**
   * `%-Ns` pads and never truncates: the type column is as wide as the
   * longer of the type text and `typePad`, the accessor column as wide as
   * the longer of the accessor and `namePad + 2`.
   */
  lemma MethodLineColumns(typeText: string, verb: string, accessor: string, desc: string, name: string,
                          ending: string, typePad: nat, namePad: nat)
    requires |verb| == 3
    ensures Columns(MethodLine(typeText, verb, accessor, desc, name, ending, typePad, namePad),
                    typeText, verb, accessor, Max(|typeText|, typePad), Max(|accessor|, namePad + 2),
                    Description(desc, name, ending))
  {
    var tcol := PadRight(typeText, typePad);
    var acol := PadRight(accessor, namePad + 2);
    PadRightLayout(typeText, typePad);
    PadRightLayout(accessor, namePad + 2);
    var tail := Description(desc, name, ending);
    var line := MethodLine(typeText, verb, accessor, desc, name, ending, typePad, namePad);
    var tw, aw := Max(|typeText|, typePad), Max(|accessor|, namePad + 2);
    var head := "@method " + tcol + " ";
    assert line == head + verb + acol + tail;
    assert |head| == 9 + tw;
    assert line[..8] == "@method ";
    assert line[8..8 + |typeText|] == tcol[..|typeText|];
    var gap := line[8 + |typeText|..9 + tw];
    forall k | 0 <= k < |gap|
      ensures gap[k] == ' '
    {
      assert line[8 + |typeText| + k] == head[8 + |typeText| + k];
      if 8 + |typeText| + k < 8 + tw {
        assert head[8 + |typeText| + k] == tcol[|typeText| + k];
      }
    }
    assert line[9 + tw..12 + tw] == verb;
    assert line[12 + tw..12 + tw + aw] == acol;
    assert line[12 + tw..12 + tw + |accessor|] == acol[..|accessor|];
    var fill := line[12 + tw + |accessor|..12 + tw + aw];
    forall k | 0 <= k < |fill|
      ensures fill[k] == ' '
    {
      assert line[12 + tw + |accessor| + k] == acol[|accessor| + k];
    }
    assert line[12 + tw + aw..] == tail;
  }

  /** A line ends in "collection" exactly when the property is a collection, and in "value" otherwise. */
  lemma MethodLineEnding(typeText: string, verb: string, accessor: string, desc: string, name: string,
                         propertyType: string, typePad: nat, namePad: nat)
    ensures var line := MethodLine(typeText, verb, accessor, desc, name, Label(propertyType), typePad, namePad);
      && (EndsWith(line, "collection") <==> propertyType == CollectionType)
      && (EndsWith(line, "value") <==> propertyType != CollectionType)
  {
    var ending := Label(propertyType);
    var line := MethodLine(typeText, verb, accessor, desc, name, ending, typePad, namePad);
    var head := "@method " + PadRight(typeText, typePad) + " " + verb + PadRight(accessor, namePad + 2)
      + " " + desc + " the current record's \"" + name + "\" ";
    assert line == head + ending;
    assert line[|line| - |ending|..] == ending;
    assert |head| >= 30;
    if propertyType == CollectionType {
      assert line[|line| - 1] == 'n';
    } else {
      assert line[|line| - 1] == 'e';
    }
  }

  /** `$getters` once the loop is done: one getter line per property, in map order. */
  function Getters(props: seq<Property>, typePad: nat, namePad: nat, camelize: string -> string): seq<string>
  {
    seq(|props|, k requires 0 <= k < |props| => GetterLine(props[k], typePad, namePad, camelize))
  }

  /** `$setters` once the loop is done. */
  function Setters(props: seq<Property>, model: string, typePad: nat, namePad: nat,
                   camelize: string -> string): seq<string>
  {
    seq(|props|, k requires 0 <= k < |props| => SetterLine(props[k], model, typePad, namePad, camelize))
  }

  /** One more property adds its getter and its setter line at the end. */
  lemma LinesOfAppended(props: seq<Property>, p: Property, model: string, typePad: nat, namePad: nat,
                        camelize: string -> string)
    ensures Getters(props + [p], typePad, namePad, camelize)
         == Getters(props, typePad, namePad, camelize) + [GetterLine(p, typePad, namePad, camelize)]
    ensures Setters(props + [p], model, typePad, namePad, camelize)
         == Setters(props, model, typePad, namePad, camelize) + [SetterLine(p, model, typePad, namePad, camelize)]
  {
  }

  /** Every line of the block, getters first and setters after them (`array_merge($getters, $setters)`). */
  function AccessorLines(props: seq<Property>, model: string, camelize: string -> string): seq<string>
    requires |props| > 0
  {
    var typePad, namePad := TypePad(props, model), NamePad(props);
    Getters(props, typePad, namePad, camelize) + Setters(props, model, typePad, namePad, camelize)
  }

  /**
   * The loop of `execute` that appends one getter and one setter line per
   * property to `$getters` and `$setters`.
   */
  method BuildAccessorLines(props: seq<Property>, model: string, typePad: nat, namePad: nat,
                            camelize: string -> string)
    returns (getters: seq<string>, setters: seq<string>)
    ensures getters == Getters(props, typePad, namePad, camelize)
    ensures setters == Setters(props, model, typePad, namePad, camelize)
  {
    getters, setters := [], [];
    var i := 0;
    while i < |props|
      invariant 0 <= i <= |props|
      invariant getters == Getters(props[..i], typePad, namePad, camelize)
      invariant setters == Setters(props[..i], model, typePad, namePad, camelize)
    {
      var p := props[i];
      assert props[..i + 1] == props[..i] + [p];
      LinesOfAppended(props[..i], p, model, typePad, namePad, camelize);
      getters := getters + [GetterLine(p, typePad, namePad, camelize)];
      setters := setters + [SetterLine(p, model, typePad, namePad, camelize)];
      i := i + 1;
    }
    assert props[..i] == props;
  }

  /**
   * `line` documents property `p`: as a getter, with the property type in
   * the type column, or as a setter, with the model name there; the type
   * column is `typePad` wide, the accessor column at least `namePad + 2`; the
   * line ends in "collection" exactly for a `Doctrine_Collection` property.
   */
  predicate Documents(line: string, p: Property, model: string, getter: bool, typePad: nat, namePad: nat,
                      camelize: string -> string)
  {
    var accessor := camelize(p.name) + "()";
    && Columns(line, if getter then p.typeName else model, if getter then "get" else "set",
               accessor, typePad, Max(|accessor|, namePad + 2),
               Description(if getter then "Returns" else "Sets", p.name, Label(p.typeName)))
    && (EndsWith(line, "collection") <==> p.typeName == CollectionType)
  }

  /** A getter line documents its property, given that the type fits `typePad`. */
  lemma GetterDocuments(p: Property, model: string, typePad: nat, namePad: nat, camelize: string -> string)
    requires |p.typeName| <= typePad
    ensures Documents(GetterLine(p, typePad, namePad, camelize), p, model, true, typePad, namePad, camelize)
  {
    var accessor := camelize(p.name) + "()";
    MethodLineColumns(p.typeName, "get", accessor, "Returns", p.name, Label(p.typeName), typePad, namePad);
    MethodLineEnding(p.typeName, "get", accessor, "Returns", p.name, p.typeName, typePad, namePad);
  }

  /** A setter line documents its property, given that the model name fits `typePad`. */
  lemma SetterDocuments(p: Property, model: string, typePad: nat, namePad: nat, camelize: string -> string)
    requires |model| <= typePad
    ensures Documents(SetterLine(p, model, typePad, namePad, camelize), p, model, false, typePad, namePad,
                      camelize)
  {
    var accessor := camelize(p.name) + "()";
    MethodLineColumns(model, "set", accessor, "Sets", p.name, Label(p.typeName), typePad, namePad);
    MethodLineEnding(model, "set", accessor, "Sets", p.name, p.typeName, typePad, namePad);
  }

  /** Every getter line documents its property, as long as every type fits `typePad`. */
  lemma GettersDocument(props: seq<Property>, model: string, typePad: nat, namePad: nat,
                        camelize: string -> string)
    requires forall k :: 0 <= k < |props| ==> |props[k].typeName| <= typePad
    ensures forall k :: 0 <= k < |props| ==>
      Documents(Getters(props, typePad, namePad, camelize)[k], props[k], model, true, typePad, namePad, camelize)
  {
    forall k | 0 <= k < |props|
      ensures Documents(GetterLine(props[k], typePad, namePad, camelize), props[k], model, true, typePad,
                        namePad, camelize)
    {
      GetterDocuments(props[k], model, typePad, namePad, camelize);
    }
  }

  /** Every setter line documents its property, as long as the model name fits `typePad`. */
  lemma SettersDocument(props: seq<Property>, model: string, typePad: nat, namePad: nat,
                        camelize: string -> string)
    requires |model| <= typePad
    ensures forall k :: 0 <= k < |props| ==>
      Documents(Setters(props, model, typePad, namePad, camelize)[k], props[k], model, false, typePad, namePad,
                camelize)
  {
    forall k | 0 <= k < |props|
      ensures Documents(SetterLine(props[k], model, typePad, namePad, camelize), props[k], model, false, typePad,
                        namePad, camelize)
    {
      SetterDocuments(props[k], model, typePad, namePad, camelize);
    }
  }

  /**
   * The layout of the whole block: the getter lines of the properties in map
   * order, then their setter lines in the same order, as many of each as
   * there are properties. Since `TypePad` is at least every type and the
   * model name, every type column is exactly `TypePad` wide, so every verb
   * starts in the same column.
   */
  lemma AccessorBlockLayout(props: seq<Property>, model: string, camelize: string -> string)
    requires |props| > 0
    ensures var getters := Getters(props, TypePad(props, model), NamePad(props), camelize);
      var setters := Setters(props, model, TypePad(props, model), NamePad(props), camelize);
      && AccessorLines(props, model, camelize) == getters + setters
      && |getters| == |props| && |setters| == |props|
      && (forall k :: 0 <= k < |props| ==>
            Documents(getters[k], props[k], model, true, TypePad(props, model), NamePad(props), camelize))
      && (forall k :: 0 <= k < |props| ==>
            Documents(setters[k], props[k], model, false, TypePad(props, model), NamePad(props), camelize))
  {
    var typePad, namePad := TypePad(props, model), NamePad(props);
    GettersDocument(props, model, typePad, namePad, camelize);
    SettersDocument(props, model, typePad, namePad, camelize);
  }
}
