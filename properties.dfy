/**
 * The `$properties` array `execute` builds from the scanner's matches
 * (`$properties[$match[2]] = $match[1]`): a PHP array keyed by property name,
 * which keeps its keys in insertion order. It is modelled as a sequence of
 * entries with distinct names.
 */
module Properties {
  import opened Text
  import opened PropertyScan

  datatype Property = Property(name: string, typeName: string)

  function Names(props: seq<Property>): (ns: seq<string>)
    ensures |ns| == |props| && forall k :: 0 <= k < |props| ==> ns[k] == props[k].name
  {
    seq(|props|, k requires 0 <= k < |props| => props[k].name)
  }

  function Types(props: seq<Property>): (ts: seq<string>)
    ensures |ts| == |props| && forall k :: 0 <= k < |props| ==> ts[k] == props[k].typeName
  {
    seq(|props|, k requires 0 <= k < |props| => props[k].typeName)
  }

  /** The names captured by the matches, in the order they were found. */
  function MatchNames(ms: seq<Match>): (ns: seq<string>)
    ensures |ns| == |ms| && forall k :: 0 <= k < |ms| ==> ns[k] == ms[k].name
  {
    seq(|ms|, k requires 0 <= k < |ms| => ms[k].name)
  }

  /** A PHP array has each key once. */
  predicate DistinctNames(props: seq<Property>)
  {
    forall i, j :: 0 <= i < j < |props| ==> props[i].name != props[j].name
  }

  /**
   * `$props[$name] = $type`: an existing key keeps its place and takes the
   * new value; a new key is appended.
   */
  function Put(props: seq<Property>, name: string, typeName: string): (r: seq<Property>)
    requires DistinctNames(props)
    ensures DistinctNames(r)
    ensures name in Names(props) ==>
      && |r| == |props|
      && forall k :: 0 <= k < |r| ==> r[k] == (if props[k].name == name then Property(name, typeName) else props[k])
    ensures name !in Names(props) ==> r == props + [Property(name, typeName)]
  {
    var names := Names(props);
    if name in names then
      var i := FirstIndex(names, name);
      var r := props[i := Property(name, typeName)];
      assert forall k :: 0 <= k < |props| ==> r[k].name == props[k].name;
      r
    else
      var r := props + [Property(name, typeName)];
      assert forall k :: 0 <= k < |props| ==> r[k] == props[k] && props[k].name == names[k];
      r
  }

  /** The array after the loop has run over all of `ms`, one `Put` per match in order. */
  function Collected(ms: seq<Match>): (props: seq<Property>)
    ensures DistinctNames(props)
    decreases |ms|
  {
    if ms == [] then []
    else
      var last := ms[|ms| - 1];
      Put(Collected(ms[..|ms| - 1]), last.name, last.typeName)
  }

  /**
   * The loop of `execute` that fills `$properties` from `$matches`, one
   * assignment per match.
   */
  method CollectProperties(ms: seq<Match>) returns (props: seq<Property>)
    ensures props == Collected(ms)
  {
    props := [];
    var i := 0;
    while i < |ms|
      invariant 0 <= i <= |ms|
      invariant props == Collected(ms[..i])
    {
      assert ms[..i + 1][..i] == ms[..i];
      props := Put(props, ms[i].name, ms[i].typeName);
      i := i + 1;
    }
    assert ms[..|ms|] == ms;
  }

  /** Index of the first occurrence of `n` in `ns`. */
  function FirstIndex(ns: seq<string>, n: string): (j: nat)
    requires n in ns
    ensures j < |ns| && ns[j] == n && forall k :: 0 <= k < j ==> ns[k] != n
  {
    if ns[0] == n then 0 else 1 + FirstIndex(ns[1..], n)
  }

  /** Index of the last match that names `n`. */
  function LastIndex(ms: seq<Match>, n: string): (j: nat)
    requires n in MatchNames(ms)
    ensures j < |ms| && ms[j].name == n && forall k :: j < k < |ms| ==> ms[k].name != n
    decreases |ms|
  {
    if ms[|ms| - 1].name == n then |ms| - 1
    else
      assert MatchNames(ms) == MatchNames(ms[..|ms| - 1]) + [ms[|ms| - 1].name];
      LastIndex(ms[..|ms| - 1], n)
  }

  lemma FirstIndexAppend(ns: seq<string>, x: string, n: string)
    requires n in ns
    ensures FirstIndex(ns + [x], n) == FirstIndex(ns, n)
  {
    var j := FirstIndex(ns, n);
    var j' := FirstIndex(ns + [x], n);
    assert (ns + [x])[j] == n;
    assert ns[j'] == n || j' == |ns|;
  }

  /** The array has an entry for exactly the names that were matched. */
  lemma {:induction false} CollectedNames(ms: seq<Match>)
    ensures forall n :: n in Names(Collected(ms)) <==> n in MatchNames(ms)
    decreases |ms|
  {
    if ms != [] {
      var init := ms[..|ms| - 1];
      var last := ms[|ms| - 1];
      var before := Collected(init);
      var props := Collected(ms);
      CollectedNames(init);
      assert MatchNames(ms) == MatchNames(init) + [last.name];
      if last.name in Names(before) {
        assert forall k :: 0 <= k < |props| ==> props[k].name == before[k].name;
        assert Names(props) == Names(before);
      } else {
        assert Names(props) == Names(before) + [last.name];
      }
    }
  }

  /** Each entry holds the type of the LAST match with its name. */
  lemma {:induction false} CollectedTypes(ms: seq<Match>)
    ensures CollectedNamesAreMatched(ms)
    ensures forall k :: 0 <= k < |Collected(ms)| ==>
      Collected(ms)[k].typeName == ms[LastIndex(ms, Collected(ms)[k].name)].typeName
    decreases |ms|
  {
    CollectedNames(ms);
    if ms != [] {
      var init := ms[..|ms| - 1];
      var last := ms[|ms| - 1];
      var before := Collected(init);
      var props := Collected(ms);
      CollectedTypes(init);
      assert MatchNames(ms) == MatchNames(init) + [last.name];
      assert LastIndex(ms, last.name) == |ms| - 1;
      forall k | 0 <= k < |props|
        ensures props[k].typeName == ms[LastIndex(ms, props[k].name)].typeName
      {
        TypeAfterPut(before, last.name, last.typeName, k);
        if props[k].name != last.name {
          var n := props[k].name;
          assert n in MatchNames(init);
          var j := LastIndex(init, n);
          assert ms[j] == init[j];
          assert LastIndex(ms, n) == LastIndex(init, n);
          assert props[k] == before[k];
          assert before[k].typeName == init[LastIndex(init, before[k].name)].typeName;
        }
      }
    }
  }

  /** What `Put` leaves at index `k`. */
  lemma TypeAfterPut(props: seq<Property>, name: string, typeName: string, k: nat)
    requires DistinctNames(props)
    requires k < |Put(props, name, typeName)|
    ensures var r := Put(props, name, typeName);
      if r[k].name == name then r[k].typeName == typeName else k < |props| && r[k] == props[k]
  {
    var r := Put(props, name, typeName);
    if name !in Names(props) && k < |props| {
      assert Names(props)[k] == props[k].name;
    }
  }

  /** Every name in the array was matched (so `LastIndex` applies to it). */
  ghost predicate CollectedNamesAreMatched(ms: seq<Match>)
  {
    forall k :: 0 <= k < |Collected(ms)| ==> Collected(ms)[k].name in MatchNames(ms)
  }

  /**
   * The entries are in the order of the first position of their names in
   * `names`.
   */
  ghost predicate InFirstOrder(props: seq<Property>, names: seq<string>)
  {
    && (forall k :: 0 <= k < |props| ==> props[k].name in names)
    && forall i, j :: 0 <= i < j < |props| ==>
         FirstIndex(names, props[i].name) < FirstIndex(names, props[j].name)
  }

  /** One more assignment keeps the order, measured on the names with the new one appended. */
  lemma PutKeepsFirstOrder(props: seq<Property>, names: seq<string>, name: string, typeName: string)
    requires DistinctNames(props) && InFirstOrder(props, names)
    requires forall n :: n in Names(props) <==> n in names
    ensures InFirstOrder(Put(props, name, typeName), names + [name])
  {
    if name in Names(props) {
      forall k | 0 <= k < |props|
        ensures FirstIndex(names + [name], props[k].name) == FirstIndex(names, props[k].name)
      {
        FirstIndexAppend(names, name, props[k].name);
      }
      PutExistingKeepsOrder(props, names, name, typeName);
    } else {
      assert name !in names;
      AppendKeepsOrder(props, names, Property(name, typeName));
    }
  }

  /** Assigning an existing key changes no name, so no position. */
  lemma PutExistingKeepsOrder(props: seq<Property>, names: seq<string>, name: string, typeName: string)
    requires DistinctNames(props) && InFirstOrder(props, names) && name in Names(props)
    requires forall k :: 0 <= k < |props| ==>
      FirstIndex(names + [name], props[k].name) == FirstIndex(names, props[k].name)
    ensures InFirstOrder(Put(props, name, typeName), names + [name])
  {
    var r := Put(props, name, typeName);
    var names' := names + [name];
    assert forall k :: 0 <= k < |r| ==> r[k].name == props[k].name;
    forall i, j | 0 <= i < j < |r|
      ensures FirstIndex(names', r[i].name) < FirstIndex(names', r[j].name)
    {
      assert FirstIndex(names, props[i].name) < FirstIndex(names, props[j].name);
    }
  }

  /** A new key goes last, and its first position is after every name seen so far. */
  lemma AppendKeepsOrder(props: seq<Property>, names: seq<string>, p: Property)
    requires InFirstOrder(props, names) && p.name !in names
    ensures InFirstOrder(props + [p], names + [p.name])
  {
    var r := props + [p];
    var names' := names + [p.name];
    FirstIndexOfNew(names, p.name);
    forall k | 0 <= k < |props|
      ensures FirstIndex(names', props[k].name) == FirstIndex(names, props[k].name)
    {
      FirstIndexAppend(names, p.name, props[k].name);
    }
    forall i, j | 0 <= i < j < |r|
      ensures FirstIndex(names', r[i].name) < FirstIndex(names', r[j].name)
    {
      assert r[i] == props[i];
      if j < |props| {
        assert r[j] == props[j];
      }
    }
  }

  /** A name not seen before is first seen at the end. */
  lemma FirstIndexOfNew(names: seq<string>, name: string)
    requires name !in names
    ensures FirstIndex(names + [name], name) == |names|
  {
  }

  /** The keys stay in the order in which each name was FIRST matched. */
  lemma {:induction false} CollectedOrder(ms: seq<Match>)
    ensures InFirstOrder(Collected(ms), MatchNames(ms))
    decreases |ms|
  {
    if ms != [] {
      var init := ms[..|ms| - 1];
      var last := ms[|ms| - 1];
      CollectedOrder(init);
      CollectedNames(init);
      assert MatchNames(ms) == MatchNames(init) + [last.name];
      PutKeepsFirstOrder(Collected(init), MatchNames(init), last.name, last.typeName);
    }
  }

  /** `$typePad`: the longest of all property types and the model name. */
  function TypePad(props: seq<Property>, model: string): (w: nat)
    ensures |model| <= w && forall k :: 0 <= k < |props| ==> |props[k].typeName| <= w
    ensures w == |model| || exists k :: 0 <= k < |props| && w == |props[k].typeName|
  {
    var all := Types(props) + [model];
    var w := MaxLength(all);
    assert all[|props|] == model;
    assert forall k :: 0 <= k < |props| ==> all[k] == props[k].typeName;
    w
  }

  /**
   * `$namePad`: the longest RAW property name. `array_map` keeps the keys of
   * `$properties`, so `array_keys` of the camelized array gives back the
   * original names and camelizing has no effect on the width.
   */
  function NamePad(props: seq<Property>): (w: nat)
    requires |props| > 0
    ensures forall k :: 0 <= k < |props| ==> |props[k].name| <= w
    ensures exists k :: 0 <= k < |props| && w == |props[k].name|
  {
    MaxLength(Names(props))
  }

  /** Every scan with a match gives at least one property. */
  lemma CollectedNonEmpty(ms: seq<Match>)
    requires ms != []
    ensures |Collected(ms)| > 0
  {
    CollectedNames(ms);
    assert ms[0].name in MatchNames(ms);
  }
}
