/**
 * The PHP string primitives the build-model code relies on, over `string`
 * (that is, `seq<char>`): `strpos`, `str_replace` (one search string, and the
 * ordered array form), `implode`, `sprintf("%-Ns")`, `strtolower`, `max` over
 * string lengths and `empty`. `Split` (the behaviour of `explode`) is not
 * called by that code; it is used to state where `str_replace` puts its
 * replacements.
 */
module Text {

  datatype Option<T> = None | Some(value: T)

  predicate EndsWith(s: string, suffix: string)
  {
    |suffix| <= |s| && s[|s| - |suffix|..] == suffix
  }

  /** `m` occurs in `s` starting at index `i`. */
  predicate OccursAt(s: string, m: string, i: int)
  {
    0 <= i && i + |m| <= |s| && s[i..i + |m|] == m
  }

  predicate Contains(s: string, m: string)
  {
    exists i | 0 <= i <= |s| :: OccursAt(s, m, i)
  }

  /** The first occurrence of `m` in `s` at or after `k` (PHP `strpos` with an offset). */
  function IndexFrom(s: string, m: string, k: nat): (r: Option<nat>)
    ensures r.Some? ==> k <= r.value && OccursAt(s, m, r.value)
    ensures r.Some? ==> forall j :: k <= j < r.value ==> !OccursAt(s, m, j)
    ensures r.None? ==> forall j :: k <= j ==> !OccursAt(s, m, j)
    decreases |s| - k
  {
    if k + |m| > |s| then None
    else if s[k..k + |m|] == m then Some(k)
    else IndexFrom(s, m, k + 1)
  }

  /** PHP `strpos($s, $m)`: `None` stands for PHP's `false`. */
  function IndexOf(s: string, m: string): (r: Option<nat>)
    ensures r.Some? ==> OccursAt(s, m, r.value) && forall j :: 0 <= j < r.value ==> !OccursAt(s, m, j)
    ensures r.None? <==> !Contains(s, m)
  {
    IndexFrom(s, m, 0)
  }

  /**
   * PHP `str_replace($search, $rep, $s)` for one search string: the
   * occurrences of `search` found left to right without overlap are each
   * replaced by `rep`; the replacement text is not searched again. An empty
   * search string leaves the subject unchanged.
   */
  function Replace(s: string, search: string, rep: string): string
    decreases |s|
  {
    if |search| == 0 then s
    else match IndexOf(s, search)
      case None => s
      case Some(i) => s[..i] + rep + Replace(s[i + |search|..], search, rep)
  }

  /** PHP `str_replace(array_keys($t), array_values($t), $s)`: each pair in turn, over the whole text. */
  function ReplaceAll(s: string, pairs: seq<(string, string)>): string
    decreases |pairs|
  {
    if pairs == [] then s else ReplaceAll(Replace(s, pairs[0].0, pairs[0].1), pairs[1..])
  }

  /**
   * The pieces between the occurrences `Replace` finds, as PHP `explode`
   * gives them: a way to say where `Replace` puts its replacements.
   */
  function Split(s: string, sep: string): (parts: seq<string>)
    requires |sep| > 0
    ensures |parts| >= 1
    decreases |s|
  {
    match IndexOf(s, sep)
    case None => [s]
    case Some(i) => [s[..i]] + Split(s[i + |sep|..], sep)
  }

  /** PHP `implode($sep, $parts)`. */
  function Join(parts: seq<string>, sep: string): string
    decreases |parts|
  {
    if |parts| == 0 then ""
    else if |parts| == 1 then parts[0]
    else parts[0] + sep + Join(parts[1..], sep)
  }

  function Spaces(n: nat): (r: string)
    ensures |r| == n
  {
    if n == 0 then "" else Spaces(n - 1) + " "
  }

  lemma {:induction false} SpacesAreBlank(n: nat)
    ensures forall k :: 0 <= k < n ==> Spaces(n)[k] == ' '
  {
    if n > 0 {
      SpacesAreBlank(n - 1);
      assert forall k :: 0 <= k < n - 1 ==> Spaces(n)[k] == Spaces(n - 1)[k];
    }
  }

  /** PHP `sprintf('%-' . $width . 's', $s)`: left-justified, padded with spaces, never truncated. */
  function PadRight(s: string, width: int): (r: string)
    ensures |r| == if |s| >= width then |s| else width
  {
    if |s| >= width then s else s + Spaces(width - |s|)
  }

  /** The padded text starts with `s` and continues with spaces only. */
  lemma PadRightLayout(s: string, width: int)
    ensures PadRight(s, width)[..|s|] == s
    ensures forall k :: |s| <= k < |PadRight(s, width)| ==> PadRight(s, width)[k] == ' '
  {
    if |s| < width {
      var fill := Spaces(width - |s|);
      SpacesAreBlank(width - |s|);
      assert forall k :: |s| <= k < width ==> PadRight(s, width)[k] == fill[k - |s|];
    }
  }

  function LowerChar(c: char): char
  {
    if 'A' <= c <= 'Z' then (c as int + 32) as char else c
  }

  /** PHP `strtolower` on ASCII text. */
  function ToLower(s: string): (r: string)
    ensures |r| == |s|
    ensures forall k :: 0 <= k < |s| ==> r[k] == LowerChar(s[k])
  {
    seq(|s|, k requires 0 <= k < |s| => LowerChar(s[k]))
  }

  /** PHP `max(array_map('strlen', $ss))` for a non-empty list. */
  function MaxLength(ss: seq<string>): (w: nat)
    requires |ss| > 0
    ensures forall k :: 0 <= k < |ss| ==> |ss[k]| <= w
    ensures exists k :: 0 <= k < |ss| && |ss[k]| == w
  {
    if |ss| == 1 then |ss[0]|
    else
      var rest := MaxLength(ss[1..]);
      assert forall k :: 1 <= k < |ss| ==> ss[k] == ss[1..][k - 1];
      if |ss[0]| >= rest then |ss[0]| else rest
  }

  /** PHP `empty($s)` for a string: true of "" and of "0". */
  predicate PhpEmpty(s: string)
  {
    s == "" || s == "0"
  }

  /**
   * Neither the first nor the last character of `t` appears in `rep`, and
   * `rep` does not occur inside `t` (which also makes `rep` non-empty).
   */
  predicate TokenEdgesOutside(t: string, rep: string)
    requires |t| > 0
  {
    t[0] !in rep && t[|t| - 1] !in rep && !Contains(t, rep)
  }

  /**
   * `rep` is non-empty, neither its first nor its last character appears in
   * `t`, and `t` does not occur inside `rep`.
   */
  predicate ReplacementEdgesOutside(t: string, rep: string)
  {
    |rep| > 0 && rep[0] !in t && rep[|rep| - 1] !in t && !Contains(rep, t)
  }

  /**
   * Putting `rep` between two texts without `t` cannot create an occurrence
   * of `t`: one of the two conditions above rules out every occurrence that
   * would overlap `rep`.
   */
  predicate InertReplacement(t: string, rep: string)
  {
    |t| > 0 && (TokenEdgesOutside(t, rep) || ReplacementEdgesOutside(t, rep))
  }

  // ---------------------------------------------------------------------
  // Lemmas about Replace, Split and Join
  // ---------------------------------------------------------------------

  /** A search string that does not occur leaves the text unchanged. */
  lemma ReplaceAbsent(s: string, search: string, rep: string)
    requires !Contains(s, search)
    ensures Replace(s, search, rep) == s
  {
  }

  /** One step of `str_replace`: up to the first occurrence, the replacement, then the rest replaced. */
  lemma ReplaceStep(s: string, m: string, rep: string)
    requires |m| > 0 && IndexOf(s, m).Some?
    ensures var i := IndexOf(s, m).value;
      && i + |m| <= |s| && s[i..i + |m|] == m
      && Replace(s, m, rep) == s[..i] + rep + Replace(s[i + |m|..], m, rep)
  {
  }

  /** Replacing a string by itself changes nothing. */
  lemma {:induction false} ReplaceSelf(s: string, m: string)
    ensures Replace(s, m, m) == s
    decreases |s|
  {
    if |m| > 0 && IndexOf(s, m).Some? {
      ReplaceStep(s, m, m);
      ReplaceSelf(s[IndexOf(s, m).value + |m|..], m);
      SliceParts(s, IndexOf(s, m).value, IndexOf(s, m).value + |m|);
    }
  }

  /** Two adjacent slices put together make the slice that covers both. */
  lemma SliceConcat(s: string, i: nat, j: nat, k: nat)
    requires i <= j <= k <= |s|
    ensures s[i..j] + s[j..k] == s[i..k]
  {
    var r := s[i..j] + s[j..k];
    forall p | 0 <= p < k - i
      ensures r[p] == s[i..k][p]
    {
      if p < j - i {
        assert r[p] == s[i..j][p];
      } else {
        assert r[p] == s[j..k][p - (j - i)];
      }
    }
  }

  /** A string is its three slices at `i` and `j` put back together. */
  lemma SliceParts(s: string, i: nat, j: nat)
    requires i <= j <= |s|
    ensures s[..i] + s[i..j] + s[j..] == s
  {
    var r := s[..i] + s[i..j] + s[j..];
    forall k | 0 <= k < |s|
      ensures r[k] == s[k]
    {
      if k < i {
        assert r[k] == s[..i][k];
      } else if k < j {
        assert r[k] == s[i..j][k - i];
      } else {
        assert r[k] == s[j..][k - j];
      }
    }
  }

  /** `str_replace` puts `rep` exactly between the pieces `explode` returns. */
  lemma {:induction false} ReplaceIsJoinOfSplit(s: string, m: string, rep: string)
    requires |m| > 0
    ensures Replace(s, m, rep) == Join(Split(s, m), rep)
    decreases |s|
  {
    match IndexOf(s, m)
    case None =>
    case Some(i) =>
      var rest := Split(s[i + |m|..], m);
      ReplaceIsJoinOfSplit(s[i + |m|..], m, rep);
      assert Split(s, m) == [s[..i]] + rest;
      assert ([s[..i]] + rest)[1..] == rest;
  }

  /** Joining the pieces again with the separator gives back the text. */
  lemma SplitJoin(s: string, m: string)
    requires |m| > 0
    ensures Join(Split(s, m), m) == s
  {
    ReplaceIsJoinOfSplit(s, m, m);
    ReplaceSelf(s, m);
  }

  /** No occurrence of `sep` starts inside a string without `sep[0]`. */
  lemma NoSeparatorStartsIn(p: string, sep: string, rest: string)
    requires |sep| > 0 && sep[0] !in p
    ensures forall j :: 0 <= j < |p| ==> !OccursAt(p + rest, sep, j)
  {
    var w := p + rest;
    forall j | 0 <= j < |p|
      ensures !OccursAt(w, sep, j)
    {
      assert w[j] == p[j];
      if j + |sep| <= |w| {
        assert w[j..j + |sep|][0] == w[j];
      }
    }
  }

  /**
   * `explode` undoes `implode` when no part holds the separator's first
   * character (so no occurrence of the separator can start inside a part).
   */
  lemma {:induction false} SplitOfJoin(parts: seq<string>, sep: string)
    requires |parts| > 0 && |sep| > 0
    requires forall k :: 0 <= k < |parts| ==> sep[0] !in parts[k]
    ensures Split(Join(parts, sep), sep) == parts
    decreases |parts|
  {
    var p0 := parts[0];
    if |parts| == 1 {
      NoSeparatorStartsIn(p0, sep, "");
      assert p0 + "" == p0;
      assert !Contains(p0, sep);
    } else {
      var rest := parts[1..];
      var tail := sep + Join(rest, sep);
      var w := p0 + tail;
      assert Join(parts, sep) == w;
      NoSeparatorStartsIn(p0, sep, tail);
      assert w[|p0|..|p0| + |sep|] == sep;
      assert OccursAt(w, sep, |p0|);
      assert IndexOf(w, sep).Some?;
      assert IndexOf(w, sep).value == |p0|;
      assert w[|p0| + |sep|..] == Join(rest, sep);
      SplitOfJoin(rest, sep);
    }
  }

  /** Two leading separators read back as two empty pieces before the parts. */
  lemma SplitOfLeadingSeparators(parts: seq<string>, sep: string)
    requires |parts| > 0 && |sep| > 0
    requires forall k :: 0 <= k < |parts| ==> sep[0] !in parts[k]
    ensures Split(sep + sep + Join(parts, sep), sep) == ["", ""] + parts
  {
    var all := ["", ""] + parts;
    var joined := Join(parts, sep);
    var once := sep + joined;
    assert all[1..][1..] == parts;
    assert "" + sep == sep;
    assert Join(all[1..], sep) == once;
    assert Join(all, sep) == sep + once;
    assert sep + once == sep + sep + joined;
    forall k | 0 <= k < |all|
      ensures sep[0] !in all[k]
    {
      if k >= 2 {
        assert all[k] == parts[k - 2];
      }
    }
    SplitOfJoin(all, sep);
  }

  /** No piece `explode` returns contains the separator. */
  lemma {:induction false} SplitPiecesFree(s: string, m: string)
    requires |m| > 0
    ensures forall k :: 0 <= k < |Split(s, m)| ==> !Contains(Split(s, m)[k], m)
    decreases |s|
  {
    if IndexOf(s, m).Some? {
      SplitStep(s, m);
      SplitPiecesFree(s[IndexOf(s, m).value + |m|..], m);
      PrefixBeforeFirstFree(s, m, IndexOf(s, m).value);
      PiecesFreeStep(s[..IndexOf(s, m).value], Split(s[IndexOf(s, m).value + |m|..], m), m);
    }
  }

  /** One step of `explode`: the text up to the first occurrence, then the pieces of the rest. */
  lemma SplitStep(s: string, m: string)
    requires |m| > 0 && IndexOf(s, m).Some?
    ensures Split(s, m) == [s[..IndexOf(s, m).value]] + Split(s[IndexOf(s, m).value + |m|..], m)
  {
  }

  lemma PiecesFreeStep(head: string, rest: seq<string>, m: string)
    requires !Contains(head, m)
    requires forall k :: 0 <= k < |rest| ==> !Contains(rest[k], m)
    ensures forall k :: 0 <= k < |[head] + rest| ==> !Contains(([head] + rest)[k], m)
  {
    var all := [head] + rest;
    forall k | 0 <= k < |all|
      ensures !Contains(all[k], m)
    {
      if k > 0 {
        assert all[k] == rest[k - 1];
      }
    }
  }

  /** Everything before the first occurrence of `m` is free of `m`. */
  lemma PrefixBeforeFirstFree(s: string, m: string, i: nat)
    requires |m| > 0 && i <= |s|
    requires forall j :: 0 <= j < i ==> !OccursAt(s, m, j)
    ensures !Contains(s[..i], m)
  {
    forall j | 0 <= j <= i
      ensures !OccursAt(s[..i], m, j)
    {
      if j + |m| <= i {
        assert s[..i][j..j + |m|] == s[j..j + |m|];
        assert j < i;
        assert !OccursAt(s, m, j);
      }
    }
  }

  /** `explode` cuts the text in two or more pieces exactly when the separator occurs. */
  lemma SplitCount(s: string, m: string)
    requires |m| > 0
    ensures Contains(s, m) <==> |Split(s, m)| >= 2
  {
    match IndexOf(s, m)
    case None =>
    case Some(i) =>
  }

  /**
   * Text that does not contain `t` still does not contain it after `m` is
   * replaced by an inert replacement.
   */
  lemma {:induction false} ReplaceKeepsAbsent(s: string, m: string, rep: string, t: string)
    requires InertReplacement(t, rep)
    requires !Contains(s, t)
    ensures !Contains(Replace(s, m, rep), t)
    decreases |s|
  {
    if |m| > 0 && IndexOf(s, m).Some? {
      ReplaceStep(s, m, rep);
      NotInSlice(s, t, 0, IndexOf(s, m).value);
      NotInSlice(s, t, IndexOf(s, m).value + |m|, |s|);
      assert s[0..IndexOf(s, m).value] == s[..IndexOf(s, m).value];
      assert s[IndexOf(s, m).value + |m|..|s|] == s[IndexOf(s, m).value + |m|..];
      ReplaceKeepsAbsent(s[IndexOf(s, m).value + |m|..], m, rep, t);
      NoOccurrenceAround(s[..IndexOf(s, m).value], rep, Replace(s[IndexOf(s, m).value + |m|..], m, rep), t);
    }
  }

  /** After every occurrence of `m` is replaced by an inert replacement, none is left. */
  lemma {:induction false} ReplaceLeavesNone(s: string, m: string, rep: string)
    requires InertReplacement(m, rep)
    ensures !Contains(Replace(s, m, rep), m)
    decreases |s|
  {
    if IndexOf(s, m).Some? {
      ReplaceLeavesNone(s[IndexOf(s, m).value + |m|..], m, rep);
      LeavesNoneStep(s, m, rep);
    } else {
      ReplaceAbsent(s, m, rep);
    }
  }

  /** The step of `ReplaceLeavesNone` at the first occurrence of `m`. */
  lemma LeavesNoneStep(s: string, m: string, rep: string)
    requires InertReplacement(m, rep) && IndexOf(s, m).Some?
    requires !Contains(Replace(s[IndexOf(s, m).value + |m|..], m, rep), m)
    ensures !Contains(Replace(s, m, rep), m)
  {
    ReplaceStep(s, m, rep);
    PrefixBeforeFirstFree(s, m, IndexOf(s, m).value);
    NoOccurrenceAround(s[..IndexOf(s, m).value], rep, Replace(s[IndexOf(s, m).value + |m|..], m, rep), m);
  }

  /** With an inert replacement, applying the same replacement twice is the same as applying it once. */
  lemma ReplaceIdempotent(s: string, m: string, rep: string)
    requires InertReplacement(m, rep)
    ensures Replace(Replace(s, m, rep), m, rep) == Replace(s, m, rep)
  {
    ReplaceLeavesNone(s, m, rep);
    ReplaceAbsent(Replace(s, m, rep), m, rep);
  }

  lemma NotInSlice(s: string, t: string, lo: nat, hi: nat)
    requires lo <= hi <= |s|
    requires !Contains(s, t)
    ensures !Contains(s[lo..hi], t)
  {
    forall j | 0 <= j <= hi - lo
      ensures !OccursAt(s[lo..hi], t, j)
    {
      if j + |t| <= hi - lo {
        var u := s[lo..hi][j..j + |t|];
        assert forall k :: 0 <= k < |t| ==> u[k] == s[lo + j + k];
        assert u == s[lo + j..lo + j + |t|];
        assert !OccursAt(s, t, lo + j);
      }
    }
  }

  /** An occurrence that ends within `a` is an occurrence in `a`. */
  lemma OccursAtLeft(a: string, x: string, t: string, j: nat)
    requires j + |t| <= |a|
    ensures OccursAt(a + x, t, j) <==> OccursAt(a, t, j)
  {
    var w := a + x;
    var u, v := w[j..j + |t|], a[j..j + |t|];
    forall k | 0 <= k < |t|
      ensures u[k] == v[k]
    {
      assert u[k] == w[j + k];
    }
    assert u == v;
  }

  /** An occurrence that starts after `x` is an occurrence in `b`. */
  lemma OccursAtRight(x: string, b: string, t: string, j: nat)
    requires |x| <= j
    ensures OccursAt(x + b, t, j) <==> OccursAt(b, t, j - |x|)
  {
    var w := x + b;
    if j + |t| <= |w| {
      var d := j - |x|;
      var u, v := w[j..j + |t|], b[d..d + |t|];
      forall k | 0 <= k < |t|
        ensures u[k] == v[k]
      {
        assert u[k] == w[j + k];
      }
      assert u == v;
    }
  }

  /** An occurrence of `t` in `a + rep + b` must lie inside `a` or inside `b`. */
  lemma NoOccurrenceAround(a: string, rep: string, b: string, t: string)
    requires InertReplacement(t, rep)
    requires !Contains(a, t) && !Contains(b, t)
    ensures !Contains(a + rep + b, t)
  {
    var ar := a + rep;
    var w := ar + b;
    forall j | 0 <= j <= |w|
      ensures !OccursAt(w, t, j)
    {
      var e := j + |t|;
      if e <= |w| {
        if e <= |a| {
          OccursAtLeft(ar, b, t, j);
          OccursAtLeft(a, rep, t, j);
          assert !OccursAt(a, t, j);
        } else if j >= |ar| {
          OccursAtRight(ar, b, t, j);
          assert !OccursAt(b, t, j - |ar|);
        } else {
          NoStraddle(a, rep, b, t, j);
        }
      }
    }
  }

  /** An occurrence of `t` that would overlap `rep` in `a + rep + b` is ruled out by inertness. */
  lemma NoStraddle(a: string, rep: string, b: string, t: string, j: nat)
    requires InertReplacement(t, rep)
    requires j < |a| + |rep| && |a| < j + |t| <= |a| + |rep| + |b|
    ensures !OccursAt(a + rep + b, t, j)
  {
    if TokenEdgesOutside(t, rep) {
      StraddleCutsToken(a, rep, b, t, j);
    } else {
      StraddleCutsReplacement(a, rep, b, t, j);
    }
  }

  /** The overlap would put an end of `t` inside `rep`, or all of `rep` inside `t`. */
  lemma StraddleCutsToken(a: string, rep: string, b: string, t: string, j: nat)
    requires |t| > 0 && TokenEdgesOutside(t, rep)
    requires j < |a| + |rep| && |a| < j + |t| <= |a| + |rep| + |b|
    ensures !OccursAt(a + rep + b, t, j)
  {
    var w := a + rep + b;
    var e := j + |t|;
    if j >= |a| {
      assert w[j] == rep[j - |a|];
      assert w[j..e][0] == w[j];
    } else if e <= |a| + |rep| {
      assert w[e - 1] == rep[e - 1 - |a|];
      assert w[j..e][|t| - 1] == w[e - 1];
    } else {
      assert w[|a|..|a| + |rep|] == rep;
      assert w[j..e][|a| - j..|a| - j + |rep|] == w[|a|..|a| + |rep|];
      assert !OccursAt(t, rep, |a| - j);
    }
  }

  /** The overlap would put an end of `rep` inside `t`, or all of `t` inside `rep`. */
  lemma StraddleCutsReplacement(a: string, rep: string, b: string, t: string, j: nat)
    requires ReplacementEdgesOutside(t, rep)
    requires j < |a| + |rep| && |a| < j + |t| <= |a| + |rep| + |b|
    ensures !OccursAt(a + rep + b, t, j)
  {
    var w := a + rep + b;
    var e := j + |t|;
    if j < |a| {
      assert w[|a|] == rep[0];
      assert w[j..e][|a| - j] == w[|a|];
    } else if e <= |a| + |rep| {
      var u, v := w[j..e], rep[j - |a|..e - |a|];
      forall k | 0 <= k < |t|
        ensures u[k] == v[k]
      {
        assert u[k] == w[j + k];
      }
      assert u == v;
      assert !OccursAt(rep, t, j - |a|);
    } else {
      assert w[|a| + |rep| - 1] == rep[|rep| - 1];
      assert w[j..e][|a| + |rep| - 1 - j] == w[|a| + |rep| - 1];
    }
  }

  /** Ordered replacement of search strings none of which occurs leaves the text unchanged. */
  lemma {:induction false} ReplaceAllAbsent(s: string, pairs: seq<(string, string)>)
    requires forall k :: 0 <= k < |pairs| ==> !Contains(s, pairs[k].0)
    ensures ReplaceAll(s, pairs) == s
    decreases |pairs|
  {
    if pairs != [] {
      ReplaceAbsent(s, pairs[0].0, pairs[0].1);
      ReplaceAllAbsent(s, pairs[1..]);
    }
  }

  /**
   * A pair whose search string no longer occurs when its turn comes can be
   * dropped from the ordered list without changing the result.
   */
  lemma {:induction false} ReplaceAllSkip(s: string, pairs: seq<(string, string)>, k: nat)
    requires k < |pairs|
    requires !Contains(ReplaceAll(s, pairs[..k]), pairs[k].0)
    ensures ReplaceAll(s, pairs) == ReplaceAll(s, pairs[..k] + pairs[k + 1..])
    decreases k
  {
    if k == 0 {
      ReplaceAbsent(s, pairs[0].0, pairs[0].1);
      assert pairs[..0] + pairs[1..] == pairs[1..];
    } else {
      var s1 := Replace(s, pairs[0].0, pairs[0].1);
      assert pairs[1..][..k - 1] == pairs[..k][1..];
      assert pairs[1..][k - 1 + 1..] == pairs[k + 1..];
      ReplaceAllSkip(s1, pairs[1..], k - 1);
      assert (pairs[..k] + pairs[k + 1..])[1..] == pairs[1..][..k - 1] + pairs[1..][k - 1 + 1..];
    }
  }
}
