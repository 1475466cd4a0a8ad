/**
 * The `@property TYPE $NAME` scanner: the model of
 * `preg_match_all('/@property (\w+) \$(\w+)/', $code, $matches, PREG_SET_ORDER)`
 * as a left-to-right scan that never overlaps two matches.
 */
module PropertyScan {
  import opened Text

  /** PCRE's `\w` without the Unicode flag: ASCII letters, digits and `_`. */
  predicate IsWordChar(c: char)
  {
    'a' <= c <= 'z' || 'A' <= c <= 'Z' || '0' <= c <= '9' || c == '_'
  }

  /** A non-empty run of word characters, as `(\w+)` captures. */
  predicate IsWord(w: string)
  {
    |w| > 0 && forall k :: 0 <= k < |w| ==> IsWordChar(w[k])
  }

  const Tag: string := "@property "

  /** One set of `$matches`: the whole match (`$match[0]`), the type (`[1]`) and the name (`[2]`), found at `pos`. */
  datatype Match = Match(pos: nat, text: string, typeName: string, name: string)
  {
    function End(): nat
    {
      pos + |text|
    }
  }

  /**
   * The regex can match at `i` with capture groups `t` and `n`: the text
   * from `i` reads `Tag`, then `t`, then " $", then `n`.
   */
  predicate Declares(s: string, i: nat, t: string, n: string)
  {
    && IsWord(t) && IsWord(n)
    && OccursAt(s, Tag, i)
    && OccursAt(s, t, i + |Tag|)
    && OccursAt(s, " $", i + |Tag| + |t|)
    && OccursAt(s, n, i + |Tag| + |t| + 2)
  }

  /** Length of the run of word characters of `s` starting at `k` (a greedy `\w*`). */
  function WordRunLength(s: string, k: nat): (n: nat)
    requires k <= |s|
    ensures k + n <= |s|
    ensures forall j :: k <= j < k + n ==> IsWordChar(s[j])
    ensures k + n == |s| || !IsWordChar(s[k + n])
    decreases |s| - k
  {
    if k < |s| && IsWordChar(s[k]) then 1 + WordRunLength(s, k + 1) else 0
  }

  /** Where the type capture `(\w+)` after the tag at `i` ends. */
  function TypeEnd(s: string, i: nat): (e: nat)
    requires i + |Tag| <= |s|
    ensures i + |Tag| <= e <= |s|
  {
    i + |Tag| + WordRunLength(s, i + |Tag|)
  }

  /** Where the name capture `(\w+)` after the type and " $" ends. */
  function NameEnd(s: string, i: nat): (e: nat)
    requires i + |Tag| <= |s| && TypeEnd(s, i) + 2 <= |s|
    ensures TypeEnd(s, i) + 2 <= e <= |s|
  {
    TypeEnd(s, i) + 2 + WordRunLength(s, TypeEnd(s, i) + 2)
  }

  /**
   * The match the regex finds when it is tried at position `i`: `\w+` is
   * greedy, so the type and the name each run to the first non-word character.
   */
  function MatchAt(s: string, i: nat): (r: Option<Match>)
    ensures r.Some? ==> r.value.pos == i && i < r.value.End() <= |s| && r.value.text == s[i..r.value.End()]
  {
    if !OccursAt(s, Tag, i) then None
    else if TypeEnd(s, i) == i + |Tag| || !OccursAt(s, " $", TypeEnd(s, i)) then None
    else if NameEnd(s, i) == TypeEnd(s, i) + 2 then None
    else Some(Match(i, s[i..NameEnd(s, i)], s[i + |Tag|..TypeEnd(s, i)], s[TypeEnd(s, i) + 2..NameEnd(s, i)]))
  }

  /**
   * Every match is a declaration: `$match[0]` reads the tag, the type
   * (`$match[1]`), " $" and the name (`$match[2]`), and the name is not
   * followed by another word character.
   */
  lemma MatchAtDeclares(s: string, i: nat)
    requires MatchAt(s, i).Some?
    ensures var m := MatchAt(s, i).value;
      && Declares(s, i, m.typeName, m.name)
      && m.text == Tag + m.typeName + " $" + m.name
      && (m.End() == |s| || !IsWordChar(s[m.End()]))
  {
    MatchAtCaptures(s, i);
    MatchAtText(s, i);
  }

  /** Both captures of a match are non-empty runs of word characters. */
  lemma MatchAtCaptures(s: string, i: nat)
    requires MatchAt(s, i).Some?
    ensures IsWord(MatchAt(s, i).value.typeName) && IsWord(MatchAt(s, i).value.name)
  {
    var m := MatchAt(s, i).value;
    forall k | 0 <= k < |m.typeName|
      ensures IsWordChar(m.typeName[k])
    {
      assert m.typeName[k] == s[i + |Tag| + k];
    }
    forall k | 0 <= k < |m.name|
      ensures IsWordChar(m.name[k])
    {
      assert m.name[k] == s[TypeEnd(s, i) + 2 + k];
    }
  }

  /** The whole match is the tag, the type, " $" and the name, one after the other. */
  lemma MatchAtText(s: string, i: nat)
    requires MatchAt(s, i).Some?
    ensures MatchAt(s, i).value.text
         == Tag + MatchAt(s, i).value.typeName + " $" + MatchAt(s, i).value.name
  {
    SliceConcat(s, i, i + |Tag|, TypeEnd(s, i));
    SliceConcat(s, i, TypeEnd(s, i), TypeEnd(s, i) + 2);
    SliceConcat(s, i, TypeEnd(s, i) + 2, NameEnd(s, i));
  }

  /** No match starts at any position in `[lo, hi)`. */
  predicate NoMatchIn(s: string, lo: nat, hi: nat)
  {
    forall j :: lo <= j < hi ==> MatchAt(s, j).None?
  }

  /**
   * `preg_match_all` from offset `i`: try each position in turn; after a
   * match, go on from where it ended.
   */
  function ScanFrom(s: string, i: nat): seq<Match>
    decreases |s| - i
  {
    if i >= |s| then []
    else match MatchAt(s, i)
      case Some(m) => [m] + ScanFrom(s, m.End())
      case None => ScanFrom(s, i + 1)
  }

  /** The `k`-th match of the scan is what the regex finds at its position, at or after `i`. */
  lemma {:induction false} ScanFromAt(s: string, i: nat, k: nat)
    requires k < |ScanFrom(s, i)|
    ensures i <= ScanFrom(s, i)[k].pos && MatchAt(s, ScanFrom(s, i)[k].pos) == Some(ScanFrom(s, i)[k])
    decreases |s| - i
  {
    ScanFromNonEmpty(s, i);
    if MatchAt(s, i).None? {
      ScanFromSkip(s, i);
      ScanFromAt(s, i + 1, k);
    } else {
      ScanFromTake(s, i);
      if k > 0 {
        ScanFromAt(s, MatchAt(s, i).value.End(), k - 1);
      }
      AtAfterTake(s, i, k);
    }
  }

  /** The step of `ScanFromAt` at a position where a match starts. */
  lemma AtAfterTake(s: string, i: nat, k: nat)
    requires MatchAt(s, i).Some? && k < |ScanFrom(s, i)|
    requires var e := MatchAt(s, i).value.End(); var rest := ScanFrom(s, e);
      k > 0 ==> k - 1 < |rest| && e <= rest[k - 1].pos && MatchAt(s, rest[k - 1].pos) == Some(rest[k - 1])
    ensures i <= ScanFrom(s, i)[k].pos && MatchAt(s, ScanFrom(s, i)[k].pos) == Some(ScanFrom(s, i)[k])
  {
    ScanFromTake(s, i);
    assert ScanFrom(s, i)[1..] == ScanFrom(s, MatchAt(s, i).value.End());
  }

  /** The `k`-th match of the scan starts after the one before it ends. */
  lemma {:induction false} ScanFromApart(s: string, i: nat, k: nat)
    requires 0 < k < |ScanFrom(s, i)|
    ensures ScanFrom(s, i)[k - 1].End() <= ScanFrom(s, i)[k].pos
    decreases |s| - i
  {
    ScanFromNonEmpty(s, i);
    if MatchAt(s, i).None? {
      ScanFromSkip(s, i);
      ScanFromApart(s, i + 1, k);
    } else {
      ScanFromTake(s, i);
      if k == 1 {
        ScanFromAt(s, MatchAt(s, i).value.End(), 0);
      } else {
        ScanFromApart(s, MatchAt(s, i).value.End(), k - 1);
      }
      ApartAfterTake(s, i, k);
    }
  }

  /** The step of `ScanFromApart` at a position where a match starts. */
  lemma ApartAfterTake(s: string, i: nat, k: nat)
    requires MatchAt(s, i).Some? && 0 < k < |ScanFrom(s, i)|
    requires var e := MatchAt(s, i).value.End(); var rest := ScanFrom(s, e);
      && k - 1 < |rest|
      && (k == 1 ==> e <= rest[0].pos)
      && (k > 1 ==> rest[k - 2].End() <= rest[k - 1].pos)
    ensures ScanFrom(s, i)[k - 1].End() <= ScanFrom(s, i)[k].pos
  {
    ScanFromTake(s, i);
    assert ScanFrom(s, i)[1..] == ScanFrom(s, MatchAt(s, i).value.End());
  }

  /**
   * Each match of the scan is what the regex finds at its position, at or
   * after `i`, and the matches do not overlap.
   */
  lemma ScanFromSound(s: string, i: nat)
    ensures var ms := ScanFrom(s, i);
      forall k :: 0 <= k < |ms| ==> i <= ms[k].pos && MatchAt(s, ms[k].pos) == Some(ms[k])
    ensures var ms := ScanFrom(s, i);
      forall k :: 0 < k < |ms| ==> ms[k - 1].End() <= ms[k].pos
  {
    var ms := ScanFrom(s, i);
    forall k | 0 <= k < |ms|
      ensures i <= ms[k].pos && MatchAt(s, ms[k].pos) == Some(ms[k])
    {
      ScanFromAt(s, i, k);
    }
    forall k | 0 < k < |ms|
      ensures ms[k - 1].End() <= ms[k].pos
    {
      ScanFromApart(s, i, k);
    }
  }

  /** All matches of the pattern in `s`, in order. */
  function Scan(s: string): seq<Match>
  {
    ScanFrom(s, 0)
  }

  // ---------------------------------------------------------------------
  // The scanner finds what the regex finds
  // ---------------------------------------------------------------------

  /**
   * Wherever the regex can match, `MatchAt` finds a match with the same type
   * and a name that extends the given one as far as word characters go.
   */
  lemma MatchAtComplete(s: string, i: nat, t: string, n: string)
    requires Declares(s, i, t, n)
    ensures MatchAt(s, i).Some?
    ensures MatchAt(s, i).value.typeName == t
    ensures |n| <= |MatchAt(s, i).value.name| && MatchAt(s, i).value.name[..|n|] == n
  {
    TypeEndOfDeclared(s, i, t, n);
    NameEndOfDeclared(s, i, t, n);
    var m := MatchAt(s, i).value;
    assert m.name[..|n|] == s[TypeEnd(s, i) + 2..TypeEnd(s, i) + 2 + |n|];
  }

  /** The type capture of a declaration ends where the declared type does. */
  lemma TypeEndOfDeclared(s: string, i: nat, t: string, n: string)
    requires Declares(s, i, t, n)
    ensures TypeEnd(s, i) == i + |Tag| + |t|
  {
    var u := s[i + |Tag|..i + |Tag| + |t|];
    forall j | i + |Tag| <= j < i + |Tag| + |t|
      ensures IsWordChar(s[j])
    {
      assert s[j] == u[j - i - |Tag|];
    }
    var v := s[i + |Tag| + |t|..i + |Tag| + |t| + 2];
    assert s[i + |Tag| + |t|] == v[0];
    WordRunExact(s, i + |Tag|, |t|);
  }

  /** The name capture of a declaration reaches at least to the end of the declared name. */
  lemma NameEndOfDeclared(s: string, i: nat, t: string, n: string)
    requires Declares(s, i, t, n) && TypeEnd(s, i) == i + |Tag| + |t|
    ensures NameEnd(s, i) >= TypeEnd(s, i) + 2 + |n|
  {
    var e := TypeEnd(s, i) + 2;
    var u := s[e..e + |n|];
    forall j | e <= j < e + |n|
      ensures IsWordChar(s[j])
    {
      assert s[j] == u[j - e];
    }
    WordRunAtLeast(s, e, |n|);
  }

  /** A word run followed by a non-word character has exactly its length. */
  lemma {:induction false} WordRunExact(s: string, k: nat, len: nat)
    requires k + len < |s|
    requires forall j :: k <= j < k + len ==> IsWordChar(s[j])
    requires !IsWordChar(s[k + len])
    ensures WordRunLength(s, k) == len
    decreases len
  {
    if len > 0 {
      WordRunExact(s, k + 1, len - 1);
    }
  }

  lemma {:induction false} WordRunAtLeast(s: string, k: nat, len: nat)
    requires k + len <= |s|
    requires forall j :: k <= j < k + len ==> IsWordChar(s[j])
    ensures WordRunLength(s, k) >= len
    decreases len
  {
    if len > 0 {
      WordRunAtLeast(s, k + 1, len - 1);
    }
  }

  lemma NoMatchStep(s: string, i: nat, hi: nat)
    requires MatchAt(s, i).None? && NoMatchIn(s, i + 1, hi)
    ensures NoMatchIn(s, i, hi)
  {
  }

  /** No match can start where the tag no longer fits. */
  lemma NoMatchAtEnd(s: string, i: nat)
    requires i >= |s|
    ensures NoMatchIn(s, i, |s| + 1)
  {
    forall j | i <= j < |s| + 1
      ensures MatchAt(s, j).None?
    {
      assert !OccursAt(s, Tag, j);
    }
  }

  /** No match starts before the first one the scan finds, nor at all when it finds none. */
  lemma {:induction false} ScanFromFirst(s: string, i: nat)
    ensures ScanFrom(s, i) == [] ==> NoMatchIn(s, i, |s| + 1)
    ensures ScanFrom(s, i) != [] ==> NoMatchIn(s, i, ScanFrom(s, i)[0].pos)
    decreases |s| - i
  {
    if i >= |s| {
      NoMatchAtEnd(s, i);
    } else if MatchAt(s, i).None? {
      ScanFromFirst(s, i + 1);
      var ms := ScanFrom(s, i + 1);
      if ms == [] {
        NoMatchStep(s, i, |s| + 1);
      } else {
        NoMatchStep(s, i, ms[0].pos);
      }
    }
  }

  /** A scan finds something only from a position inside the text. */
  lemma ScanFromNonEmpty(s: string, i: nat)
    requires ScanFrom(s, i) != []
    ensures i < |s|
  {
  }

  lemma ScanFromSkip(s: string, i: nat)
    requires i < |s| && MatchAt(s, i).None?
    ensures ScanFrom(s, i) == ScanFrom(s, i + 1)
  {
  }

  lemma ScanFromTake(s: string, i: nat)
    requires MatchAt(s, i).Some?
    ensures ScanFrom(s, i) == [MatchAt(s, i).value] + ScanFrom(s, MatchAt(s, i).value.End())
  {
  }

  /** No match starts after the last match of the scan. */
  lemma {:induction false} ScanFromLastGap(s: string, i: nat)
    requires ScanFrom(s, i) != []
    ensures NoMatchIn(s, ScanFrom(s, i)[|ScanFrom(s, i)| - 1].End(), |s| + 1)
    decreases |s| - i
  {
    ScanFromNonEmpty(s, i);
    if MatchAt(s, i).None? {
      ScanFromSkip(s, i);
      ScanFromLastGap(s, i + 1);
    } else {
      if ScanFrom(s, MatchAt(s, i).value.End()) == [] {
        ScanFromFirst(s, MatchAt(s, i).value.End());
      } else {
        ScanFromLastGap(s, MatchAt(s, i).value.End());
      }
      LastGapAfterTake(s, i);
    }
  }

  /** The step of `ScanFromLastGap` at a position where a match starts. */
  lemma LastGapAfterTake(s: string, i: nat)
    requires MatchAt(s, i).Some?
    requires var e := MatchAt(s, i).value.End();
      ScanFrom(s, e) == [] ==> NoMatchIn(s, e, |s| + 1)
    requires var e := MatchAt(s, i).value.End();
      ScanFrom(s, e) != [] ==> NoMatchIn(s, ScanFrom(s, e)[|ScanFrom(s, e)| - 1].End(), |s| + 1)
    ensures NoMatchIn(s, ScanFrom(s, i)[|ScanFrom(s, i)| - 1].End(), |s| + 1)
  {
    ScanFromTake(s, i);
    assert ScanFrom(s, i)[1..] == ScanFrom(s, MatchAt(s, i).value.End());
  }

  /** No match starts between the `k-1`-th and the `k`-th match of the scan. */
  lemma {:induction false} ScanFromGap(s: string, i: nat, k: nat)
    requires 0 < k < |ScanFrom(s, i)|
    ensures NoMatchIn(s, ScanFrom(s, i)[k - 1].End(), ScanFrom(s, i)[k].pos)
    decreases |s| - i
  {
    ScanFromNonEmpty(s, i);
    if MatchAt(s, i).None? {
      ScanFromSkip(s, i);
      ScanFromGap(s, i + 1, k);
    } else {
      ScanFromTake(s, i);
      if k == 1 {
        ScanFromFirst(s, MatchAt(s, i).value.End());
      } else {
        ScanFromGap(s, MatchAt(s, i).value.End(), k - 1);
      }
      GapAfterTake(s, i, k);
    }
  }

  /** The step of `ScanFromGap` at a position where a match starts. */
  lemma GapAfterTake(s: string, i: nat, k: nat)
    requires MatchAt(s, i).Some? && 0 < k < |ScanFrom(s, i)|
    requires var e := MatchAt(s, i).value.End(); var rest := ScanFrom(s, e);
      && k - 1 < |rest|
      && (k == 1 ==> NoMatchIn(s, e, rest[0].pos))
      && (k > 1 ==> NoMatchIn(s, rest[k - 2].End(), rest[k - 1].pos))
    ensures NoMatchIn(s, ScanFrom(s, i)[k - 1].End(), ScanFrom(s, i)[k].pos)
  {
    ScanFromTake(s, i);
    assert ScanFrom(s, i)[1..] == ScanFrom(s, MatchAt(s, i).value.End());
  }

  /**
   * The scan misses no match: none starts before the first match, between
   * two consecutive matches or after the last one, and no match at all
   * when the scan is empty.
   */
  lemma ScanFromComplete(s: string, i: nat)
    ensures var ms := ScanFrom(s, i);
      && (ms == [] ==> NoMatchIn(s, i, |s| + 1))
      && (ms != [] ==> NoMatchIn(s, i, ms[0].pos))
      && (forall k :: 0 < k < |ms| ==> NoMatchIn(s, ms[k - 1].End(), ms[k].pos))
      && (ms != [] ==> NoMatchIn(s, ms[|ms| - 1].End(), |s| + 1))
  {
    ScanFromFirst(s, i);
    var ms := ScanFrom(s, i);
    forall k | 0 < k < |ms|
      ensures NoMatchIn(s, ms[k - 1].End(), ms[k].pos)
    {
      ScanFromGap(s, i, k);
    }
    if ms != [] {
      ScanFromLastGap(s, i);
    }
  }

  /**
   * The last match of a scan (`end($matches)` in the source's loop): one the
   * regex finds at its position, so its text is not empty.
   */
  function LastMatch(s: string): (m: Match)
    requires Scan(s) != []
    ensures MatchAt(s, m.pos) == Some(m) && |m.text| > 0
  {
    var last := Scan(s)[|Scan(s)| - 1];
    ScanFromAt(s, 0, |Scan(s)| - 1);
    var r := MatchAt(s, last.pos);
    assert r.value == last;
    assert |r.value.text| == r.value.End() - last.pos;
    last
  }

  /** There is no match at all exactly when the scan finds none. */
  lemma ScanEmptyIff(s: string)
    ensures Scan(s) == [] <==> NoMatchIn(s, 0, |s| + 1)
  {
    ScanFromComplete(s, 0);
    ScanFromSound(s, 0);
    var ms := Scan(s);
    if ms != [] {
      assert MatchAt(s, ms[0].pos).Some?;
      assert ms[0].pos <= |s| by {
        assert OccursAt(s, ms[0].text, ms[0].pos);
      }
    }
  }
}
