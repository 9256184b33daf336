/**
  The handful of Python `str` operations the modelled code relies on, restricted
  to ASCII: `strip`, `strip(chars)`, `split(sep)`, `split()`, `lower`, `istitle`
  and the substring test `t in s`.
 */
module Text {

  /** The ASCII characters that Python's `str.split()` and `str.strip()` treat as whitespace. */
  const Whitespace: set<char> :=
    {' ', '\t', '\n', '\r', '\U{000B}', '\U{000C}', '\U{001C}', '\U{001D}', '\U{001E}', '\U{001F}'}

  // ---------------------------------------------------------------------------
  // strip

  /** Drops the leading characters that belong to `cs`. */
  function TrimStart(s: string, cs: set<char>): (r: string)
    ensures |r| <= |s| && r == s[|s| - |r|..]
    ensures forall i :: 0 <= i < |s| - |r| ==> s[i] in cs
    ensures r == [] || r[0] !in cs
  {
    if s != [] && s[0] in cs then TrimStart(s[1..], cs) else s
  }

  /** Drops the trailing characters that belong to `cs`. */
  function TrimEnd(s: string, cs: set<char>): (r: string)
    ensures |r| <= |s| && r == s[..|r|]
    ensures forall i :: |r| <= i < |s| ==> s[i] in cs
    ensures r == [] || r[|r| - 1] !in cs
  {
    if s != [] && s[|s| - 1] in cs then TrimEnd(s[..|s| - 1], cs) else s
  }

  /**
    Python's `s.strip(chars)`: the slice `s[lo..hi]` left after dropping the
    characters of `cs` from both ends.
   */
  function StripChars(s: string, cs: set<char>): (r: string)
    ensures StripStart(s, cs) + |r| <= |s|
    ensures r == s[StripStart(s, cs)..StripStart(s, cs) + |r|]
    ensures forall i :: 0 <= i < StripStart(s, cs) ==> s[i] in cs
    ensures forall i :: StripStart(s, cs) + |r| <= i < |s| ==> s[i] in cs
    ensures r == [] || (r[0] !in cs && r[|r| - 1] !in cs)
  {
    TrimEnd(TrimStart(s, cs), cs)
  }

  /** Where the slice kept by `StripChars` begins. */
  function StripStart(s: string, cs: set<char>): nat
  {
    |s| - |TrimStart(s, cs)|
  }

  /** Python's `s.strip()`. */
  function Strip(s: string): string
  {
    StripChars(s, Whitespace)
  }

  /** Stripping twice changes nothing more than stripping once. */
  lemma StripCharsIdempotent(s: string, cs: set<char>)
    ensures StripChars(StripChars(s, cs), cs) == StripChars(s, cs)
  {
  }

  /** Stripping removes characters only: none of `cs` appears in the result unless it was in `s`. */
  lemma StripKeepsNoneOf(s: string, cs: set<char>)
    requires NoneOf(s, cs)
    ensures NoneOf(Strip(s), cs)
  {
    var r := Strip(s);
    var lo := StripStart(s, Whitespace);
    assert r == s[lo..lo + |r|];
    assert forall i :: 0 <= i < |r| ==> r[i] == s[lo + i];
  }

  /** Python's `not s.strip()`: the string holds whitespace only (or nothing). */
  predicate IsBlank(s: string)
  {
    forall i :: 0 <= i < |s| ==> s[i] in Whitespace
  }

  /** A string is blank exactly when stripping it leaves nothing. */
  lemma IsBlankIff(s: string)
    ensures IsBlank(s) <==> Strip(s) == ""
  {
  }

  // ---------------------------------------------------------------------------
  // lower

  function LowerChar(c: char): char
  {
    if 'A' <= c <= 'Z' then (c as int + 32) as char else c
  }

  /** Python's `s.lower()` on ASCII letters: the same length, each letter lowered. */
  function Lower(s: string): (r: string)
    ensures |r| == |s|
    ensures forall i :: 0 <= i < |s| ==> r[i] == LowerChar(s[i])
  {
    if s == [] then [] else [LowerChar(s[0])] + Lower(s[1..])
  }

  // ---------------------------------------------------------------------------
  // substring test

  predicate IsPrefix(t: string, s: string)
  {
    |t| <= |s| && s[..|t|] == t
  }

  /** `t` occurs in `s` starting at position `i`. */
  ghost predicate OccursAt(s: string, t: string, i: int)
  {
    0 <= i <= |s| - |t| && s[i..i + |t|] == t
  }

  /** Python's `t in s` for strings: tried at each start position in turn. */
  predicate Contains(s: string, t: string)
    decreases |s|
  {
    IsPrefix(t, s) || (s != [] && Contains(s[1..], t))
  }

  /** `Contains` holds exactly when `t` occurs as a slice of `s`. */
  lemma {:induction false} ContainsIff(s: string, t: string)
    ensures Contains(s, t) <==> exists i :: OccursAt(s, t, i)
    decreases |s|
  {
    if s == [] {
      if Contains(s, t) {
        assert OccursAt(s, t, 0);
      }
    } else {
      ContainsIff(s[1..], t);
      if Contains(s, t) {
        if IsPrefix(t, s) {
          assert OccursAt(s, t, 0);
        } else {
          var i :| OccursAt(s[1..], t, i);
          assert s[1..][i..i + |t|] == s[i + 1..i + 1 + |t|];
          assert OccursAt(s, t, i + 1);
        }
      } else {
        forall i | 0 <= i <= |s| - |t|
          ensures !OccursAt(s, t, i)
        {
          if i == 0 {
            assert !IsPrefix(t, s);
          } else {
            assert s[1..][i - 1..i - 1 + |t|] == s[i..i + |t|];
            assert !OccursAt(s[1..], t, i - 1);
          }
        }
      }
    }
  }

  // ---------------------------------------------------------------------------
  // split

  /**
    Python's `s.split(sep)`, generalised to a set of one-character separators:
    every separator closes a segment, so there is always one segment more than
    there are separators.
   */
  function SplitOn(s: string, seps: set<char>): (r: seq<string>)
    ensures |r| >= 1
    ensures forall seg :: seg in r ==> NoneOf(seg, seps)
    decreases |s|
  {
    if s == [] then [""] else Prepend(s[0], SplitOn(s[1..], seps), seps)
  }

  /** What reading one more character `x` in front does to a list of segments. */
  function Prepend(x: char, segs: seq<string>, seps: set<char>): (r: seq<string>)
    requires |segs| >= 1
    ensures |r| >= 1
    ensures (forall seg :: seg in segs ==> NoneOf(seg, seps)) ==> forall seg :: seg in r ==> NoneOf(seg, seps)
  {
    if x in seps then [""] + segs
    else
      assert segs[0] in segs && forall y :: y in segs[1..] ==> y in segs;
      [[x] + segs[0]] + segs[1..]
  }

  lemma PrependAppend(x: char, left: seq<string>, right: seq<string>, seps: set<char>)
    requires |left| >= 1
    ensures Prepend(x, left + right, seps) == Prepend(x, left, seps) + right
  {
    var rest := left + right;
    assert rest[0] == left[0] && rest[1..] == left[1..] + right;
  }

  /** One step of `SplitOn`, stated for a string given as its first character and the rest. */
  lemma SplitCons(x: char, t: string, seps: set<char>)
    ensures SplitOn([x] + t, seps) == Prepend(x, SplitOn(t, seps), seps)
  {
    assert ([x] + t)[0] == x && ([x] + t)[1..] == t;
  }

  /** Splitting at a separator splits the two sides independently. */
  lemma {:induction false} SplitAppend(a: string, c: char, b: string, seps: set<char>)
    requires c in seps
    ensures SplitOn(a + [c] + b, seps) == SplitOn(a, seps) + SplitOn(b, seps)
    decreases |a|
  {
    if a == [] {
      assert a + [c] + b == [c] + b;
      SplitCons(c, b, seps);
    } else {
      var x, a' := a[0], a[1..];
      assert a == [x] + a';
      assert a + [c] + b == [x] + (a' + [c] + b);
      SplitAppend(a', c, b, seps);
      SplitCons(x, a' + [c] + b, seps);
      SplitCons(x, a', seps);
      PrependAppend(x, SplitOn(a', seps), SplitOn(b, seps), seps);
    }
  }

  /** No character of `s` belongs to `cs`. */
  predicate NoneOf(s: string, cs: set<char>)
  {
    forall i :: 0 <= i < |s| ==> s[i] !in cs
  }

  /** Python's `sep.join(segs)`. */
  function JoinWith(segs: seq<string>, sep: char): string
    requires |segs| >= 1
  {
    if |segs| == 1 then segs[0] else segs[0] + [sep] + JoinWith(segs[1..], sep)
  }

  /** Joining after an empty first segment puts a separator first. */
  lemma JoinEmptyFirst(rest: seq<string>, sep: char)
    requires |rest| >= 1
    ensures JoinWith([""] + rest, sep) == [sep] + JoinWith(rest, sep)
  {
    assert ([""] + rest)[1..] == rest;
  }

  /** Joining after extending the first segment by `c` puts `c` first. */
  lemma JoinExtendFirst(c: char, rest: seq<string>, sep: char)
    requires |rest| >= 1
    ensures JoinWith([[c] + rest[0]] + rest[1..], sep) == [c] + JoinWith(rest, sep)
  {
    var r := [[c] + rest[0]] + rest[1..];
    if |rest| > 1 {
      assert r[1..] == rest[1..];
      assert JoinWith(r, sep) == ([c] + rest[0]) + [sep] + JoinWith(rest[1..], sep);
    }
  }

  /** Joining the segments of a split with its separator gives back the string. */
  lemma {:induction false} JoinSplit(s: string, sep: char)
    ensures JoinWith(SplitOn(s, {sep}), sep) == s
    decreases |s|
  {
    if s != [] {
      JoinSplit(s[1..], sep);
      var rest := SplitOn(s[1..], {sep});
      if s[0] == sep {
        JoinEmptyFirst(rest, sep);
      } else {
        JoinExtendFirst(s[0], rest, sep);
      }
      assert s == [s[0]] + s[1..];
    }
  }

  /** The non-empty strings of `ss`, in order. */
  function NonEmpty(ss: seq<string>): (r: seq<string>)
    ensures |r| <= |ss|
    ensures forall k :: 0 <= k < |r| ==> r[k] != ""
    ensures forall x :: x in r <==> x in ss && x != ""
  {
    if ss == [] then [] else (if ss[0] == "" then [] else [ss[0]]) + NonEmpty(ss[1..])
  }

  /** Filtering distributes over concatenation: order and repeats are kept. */
  lemma {:induction false} NonEmptyAppend(a: seq<string>, b: seq<string>)
    ensures NonEmpty(a + b) == NonEmpty(a) + NonEmpty(b)
    decreases |a|
  {
    if a != [] {
      assert (a + b)[0] == a[0] && (a + b)[1..] == a[1..] + b;
      NonEmptyAppend(a[1..], b);
      var h := if a[0] == "" then [] else [a[0]];
      assert NonEmpty(a + b) == h + (NonEmpty(a[1..]) + NonEmpty(b));
      assert h + (NonEmpty(a[1..]) + NonEmpty(b)) == (h + NonEmpty(a[1..])) + NonEmpty(b);
    } else {
      assert a + b == b;
    }
  }

  /** The positions of the non-empty strings of `ss`. */
  function NonEmptyIndices(ss: seq<string>): seq<nat>
    decreases |ss|
  {
    if ss == [] then []
    else
      var p := ss[..|ss| - 1];
      NonEmptyIndices(p) + if ss[|ss| - 1] == "" then [] else [|p|]
  }

  lemma {:induction false} NonEmptyIndicesIncreasing(ss: seq<string>)
    ensures forall j :: 0 <= j < |NonEmptyIndices(ss)| ==> NonEmptyIndices(ss)[j] < |ss|
    ensures forall j, j' :: 0 <= j < j' < |NonEmptyIndices(ss)| ==> NonEmptyIndices(ss)[j] < NonEmptyIndices(ss)[j']
    decreases |ss|
  {
    if ss != [] {
      NonEmptyIndicesIncreasing(ss[..|ss| - 1]);
    }
  }

  lemma {:induction false} NonEmptyIndicesExact(ss: seq<string>)
    ensures forall i :: 0 <= i < |ss| ==> (i in NonEmptyIndices(ss) <==> ss[i] != "")
    decreases |ss|
  {
    if ss != [] {
      var p := ss[..|ss| - 1];
      NonEmptyIndicesExact(p);
      NonEmptyIndicesIncreasing(p);
      assert forall i :: 0 <= i < |p| ==> p[i] == ss[i];
    }
  }

  lemma {:induction false} NonEmptyIndicesKept(ss: seq<string>)
    ensures |NonEmptyIndices(ss)| == |NonEmpty(ss)|
    ensures forall j :: 0 <= j < |NonEmptyIndices(ss)| ==>
              NonEmptyIndices(ss)[j] < |ss| && NonEmpty(ss)[j] == ss[NonEmptyIndices(ss)[j]]
    decreases |ss|
  {
    if ss != [] {
      var p, x := ss[..|ss| - 1], ss[|ss| - 1];
      assert ss == p + [x];
      NonEmptyIndicesKept(p);
      NonEmptyIndicesIncreasing(p);
      NonEmptyAppend(p, [x]);
      assert NonEmpty([x]) == if x == "" then [] else [x];
      var pre, idx := NonEmptyIndices(p), NonEmptyIndices(ss);
      forall j | 0 <= j < |pre|
        ensures idx[j] == pre[j] && ss[pre[j]] == p[pre[j]]
      { }
    }
  }

  /**
    `NonEmpty` keeps the non-empty strings in their order, repeats included:
    `NonEmptyIndices` lists, increasing, exactly the positions it keeps.
   */
  lemma NonEmptyKeepsOrder(ss: seq<string>)
    ensures var idx := NonEmptyIndices(ss);
            && |idx| == |NonEmpty(ss)|
            && (forall j :: 0 <= j < |idx| ==> idx[j] < |ss| && NonEmpty(ss)[j] == ss[idx[j]])
            && (forall j, j' :: 0 <= j < j' < |idx| ==> idx[j] < idx[j'])
            && (forall i :: 0 <= i < |ss| ==> (i in idx <==> ss[i] != ""))
  {
    NonEmptyIndicesIncreasing(ss);
    NonEmptyIndicesExact(ss);
    NonEmptyIndicesKept(ss);
  }

  /** Python's `s.split()`: the maximal runs of non-whitespace characters. */
  function Words(s: string): (r: seq<string>)
    ensures forall w :: w in r ==> w != "" && NoneOf(w, Whitespace)
  {
    NonEmpty(SplitOn(s, Whitespace))
  }

  /** Text without a separator splits into itself alone. */
  lemma {:induction false} SplitNoneOf(s: string, seps: set<char>)
    requires NoneOf(s, seps)
    ensures SplitOn(s, seps) == [s]
    decreases |s|
  {
    if s != [] {
      assert NoneOf(s[1..], seps) by {
        assert forall i :: 0 <= i < |s| - 1 ==> s[1..][i] == s[i + 1];
      }
      SplitNoneOf(s[1..], seps);
      SplitCons(s[0], s[1..], seps);
      assert [s[0]] + s[1..] == s;
    }
  }

  /** A whitespace-free text is one word, or none when it is empty. */
  lemma WordsNoSpace(s: string)
    requires NoneOf(s, Whitespace)
    ensures Words(s) == if s == "" then [] else [s]
  {
    SplitNoneOf(s, Whitespace);
  }

  /**
    A whitespace character ends the word before it: the words of `a + [c] + b`
    are those of `a` followed by those of `b`. With `WordsNoSpace` this fixes
    `split()` as the maximal whitespace-free runs of the text, in order.
   */
  lemma WordsAppend(a: string, c: char, b: string)
    requires c in Whitespace
    ensures Words(a + [c] + b) == Words(a) + Words(b)
  {
    SplitAppend(a, c, b, Whitespace);
    NonEmptyAppend(SplitOn(a, Whitespace), SplitOn(b, Whitespace));
  }

  // ---------------------------------------------------------------------------
  // istitle

  predicate IsUpperChar(c: char) { 'A' <= c <= 'Z' }

  predicate IsLowerChar(c: char) { 'a' <= c <= 'z' }

  predicate IsCasedChar(c: char) { IsUpperChar(c) || IsLowerChar(c) }

  /** CPython's `str.istitle` scan, with its two flags `previousCased` and `cased`. */
  predicate TitleScan(s: string, previousCased: bool, cased: bool)
    decreases |s|
  {
    if s == [] then cased
    else if IsUpperChar(s[0]) then !previousCased && TitleScan(s[1..], true, true)
    else if IsLowerChar(s[0]) then previousCased && TitleScan(s[1..], true, true)
    else TitleScan(s[1..], false, cased)
  }

  /** Python's `s.istitle()`. */
  predicate IsTitle(s: string)
  {
    TitleScan(s, false, false)
  }

  /** Whether the character before position `i` is a letter; `before` stands for what precedes `s`. */
  ghost predicate CasedBefore(s: string, i: int, before: bool)
    requires 0 <= i < |s|
  {
    if i == 0 then before else IsCasedChar(s[i - 1])
  }

  /** What `TitleScan` checks, stated position by position. */
  ghost predicate TitleFrom(s: string, previousCased: bool, cased: bool)
  {
    && (cased || exists i :: 0 <= i < |s| && IsCasedChar(s[i]))
    && (forall i :: 0 <= i < |s| && IsUpperChar(s[i]) ==> !CasedBefore(s, i, previousCased))
    && (forall i :: 0 <= i < |s| && IsLowerChar(s[i]) ==> CasedBefore(s, i, previousCased))
  }

  /**
    Title case: the string has a letter, no upper-case letter follows a letter,
    and every lower-case letter follows a letter.
   */
  ghost predicate TitleCased(s: string)
  {
    && (exists i :: 0 <= i < |s| && IsCasedChar(s[i]))
    && (forall i :: 0 < i < |s| && IsUpperChar(s[i]) ==> !IsCasedChar(s[i - 1]))
    && (forall i :: 0 <= i < |s| && IsLowerChar(s[i]) ==> i > 0 && IsCasedChar(s[i - 1]))
  }

  lemma {:induction false} TitleScanIff(s: string, previousCased: bool, cased: bool)
    ensures TitleScan(s, previousCased, cased) <==> TitleFrom(s, previousCased, cased)
    decreases |s|
  {
    if s != [] {
      var t := s[1..];
      var c := s[0];
      var p' := IsCasedChar(c);
      var cased' := cased || p';
      TitleScanIff(t, p', cased');
      assert forall i :: 0 <= i < |t| ==> t[i] == s[i + 1];
      assert forall i :: 0 <= i < |t| ==> CasedBefore(t, i, p') == CasedBefore(s, i + 1, previousCased);
      assert (exists i :: 0 <= i < |s| && IsCasedChar(s[i])) <==>
             (p' || exists i :: 0 <= i < |t| && IsCasedChar(t[i])) by {
        if exists i :: 0 <= i < |s| && IsCasedChar(s[i]) {
          var i :| 0 <= i < |s| && IsCasedChar(s[i]);
          if i > 0 { assert IsCasedChar(t[i - 1]); }
        }
        if exists i :: 0 <= i < |t| && IsCasedChar(t[i]) {
          var i :| 0 <= i < |t| && IsCasedChar(t[i]);
          assert IsCasedChar(s[i + 1]);
        }
      }
      if TitleFrom(s, previousCased, cased) {
        assert TitleFrom(t, p', cased') by {
          forall i | 0 <= i < |t| && IsUpperChar(t[i])
            ensures !CasedBefore(t, i, p')
          {
            assert IsUpperChar(s[i + 1]);
          }
          forall i | 0 <= i < |t| && IsLowerChar(t[i])
            ensures CasedBefore(t, i, p')
          {
            assert IsLowerChar(s[i + 1]);
          }
        }
        assert IsUpperChar(c) ==> !previousCased;
        assert IsLowerChar(c) ==> previousCased;
      }
      if TitleScan(s, previousCased, cased) {
        assert TitleFrom(t, p', cased');
        forall i | 0 <= i < |s| && IsUpperChar(s[i])
          ensures !CasedBefore(s, i, previousCased)
        {
          if i > 0 { assert IsUpperChar(t[i - 1]); }
        }
        forall i | 0 <= i < |s| && IsLowerChar(s[i])
          ensures CasedBefore(s, i, previousCased)
        {
          if i > 0 { assert IsLowerChar(t[i - 1]); }
        }
      }
    }
  }

  /** `IsTitle` agrees with the position-by-position reading of title case. */
  lemma IsTitleIff(s: string)
    ensures IsTitle(s) <==> TitleCased(s)
  {
    TitleScanIff(s, false, false);
  }
}
