/** The few Python string operations the dataset converter uses, on strings
    as sequences of characters. */
module Text {

  /** Python's whitespace characters, the ones `str.strip()` removes. */
  predicate IsSpace(c: char)
  {
    || c == ' ' || ('\t' <= c <= '\r') || ('\U{1C}' <= c <= '\U{1F}')
    || c == '\U{85}' || c == '\U{A0}' || c == '\U{1680}'
    || ('\U{2000}' <= c <= '\U{200A}') || c == '\U{2028}' || c == '\U{2029}'
    || c == '\U{202F}' || c == '\U{205F}' || c == '\U{3000}'
  }

  function TrimLeft(s: string): string
    decreases |s|
  {
    if |s| > 0 && IsSpace(s[0]) then TrimLeft(s[1..]) else s
  }

  function TrimRight(s: string): string
    decreases |s|
  {
    if |s| > 0 && IsSpace(s[|s| - 1]) then TrimRight(s[..|s| - 1]) else s
  }

  /** `s.strip()`. */
  function Strip(s: string): string
  {
    TrimRight(TrimLeft(s))
  }

  lemma {:induction false} TrimLeftIndex(s: string) returns (i: int)
    ensures 0 <= i <= |s| && TrimLeft(s) == s[i..]
    ensures forall k :: 0 <= k < i ==> IsSpace(s[k])
    ensures i < |s| ==> !IsSpace(s[i])
    decreases |s|
  {
    if |s| > 0 && IsSpace(s[0]) {
      var i' := TrimLeftIndex(s[1..]);
      i := i' + 1;
      forall k | 0 < k < i
        ensures IsSpace(s[k])
      {
        assert s[k] == s[1..][k - 1];
      }
    } else {
      i := 0;
    }
  }

  lemma {:induction false} TrimRightIndex(s: string) returns (j: int)
    ensures 0 <= j <= |s| && TrimRight(s) == s[..j]
    ensures forall k :: j <= k < |s| ==> IsSpace(s[k])
    ensures j > 0 ==> !IsSpace(s[j - 1])
    decreases |s|
  {
    if |s| > 0 && IsSpace(s[|s| - 1]) {
      var init := s[..|s| - 1];
      j := TrimRightIndex(init);
      assert init[..j] == s[..j];
      forall k | j <= k < |s| - 1
        ensures IsSpace(s[k])
      {
        assert s[k] == init[k];
      }
    } else {
      j := |s|;
    }
  }

  /** `s[i..j]` is `s` with only whitespace cut off on either side. */
  ghost predicate TrimmedAt(s: string, i: int, j: int)
  {
    && 0 <= i <= j <= |s|
    && (forall k :: 0 <= k < i ==> IsSpace(s[k]))
    && (forall k :: j <= k < |s| ==> IsSpace(s[k]))
  }

  /** `strip` removes exactly the leading and trailing whitespace: the result
      is a slice of the input with only whitespace cut off on either side,
      and it neither starts nor ends with whitespace. */
  lemma StripSpec(s: string)
    ensures exists i, j :: TrimmedAt(s, i, j) && Strip(s) == s[i..j]
    ensures Strip(s) != [] ==> !IsSpace(Strip(s)[0]) && !IsSpace(Strip(s)[|Strip(s)| - 1])
  {
    var t := TrimLeft(s);
    var i := TrimLeftIndex(s);
    var j := TrimRightIndex(t);
    assert Strip(s) == s[i..i + j];
    forall k | i + j <= k < |s|
      ensures IsSpace(s[k])
    {
      assert s[k] == t[k - i];
    }
    assert TrimmedAt(s, i, i + j);
  }

  /** A string that neither starts nor ends with whitespace is left alone. */
  lemma StripKeeps(s: string)
    requires s != [] ==> !IsSpace(s[0]) && !IsSpace(s[|s| - 1])
    ensures Strip(s) == s
  {
    assert TrimLeft(s) == s;
  }

  /** Python's `lower` on one character, for the ASCII letters. */
  function LowerChar(c: char): char
  {
    if 'A' <= c <= 'Z' then (c as int + 32) as char else c
  }

  /** `s.lower()`, mapping the ASCII letters. */
  function Lower(s: string): (r: string)
    ensures |r| == |s| && forall k :: 0 <= k < |s| ==> r[k] == LowerChar(s[k])
  {
    seq(|s|, k requires 0 <= k < |s| => LowerChar(s[k]))
  }

  /** `s.lower() == 'false'` holds exactly for the five letters of `false`,
      each in either case. */
  lemma LowerIsFalse(s: string)
    ensures Lower(s) == "false" <==> |s| == 5 && forall k :: 0 <= k < 5 ==> s[k] == "false"[k] || s[k] == "FALSE"[k]
  {
    if |s| == 5 && forall k :: 0 <= k < 5 ==> s[k] == "false"[k] || s[k] == "FALSE"[k] {
      assert forall k :: 0 <= k < 5 ==> Lower(s)[k] == "false"[k];
    }
    if Lower(s) == "false" {
      forall k | 0 <= k < 5
        ensures s[k] == "false"[k] || s[k] == "FALSE"[k]
      {
        assert LowerChar(s[k]) == "false"[k];
      }
    }
  }

  /** `s.replace(pat, '')`: every occurrence of `pat` found scanning left to
      right, without overlaps, is deleted. */
  function RemoveAll(s: string, pat: string): string
    requires |pat| > 0
    decreases |s|
  {
    if |s| < |pat| then s
    else if s[..|pat|] == pat then RemoveAll(s[|pat|..], pat)
    else [s[0]] + RemoveAll(s[1..], pat)
  }

  /** A string without the pattern's first character has no occurrence. */
  lemma {:induction false} RemoveAllAbsent(s: string, pat: string)
    requires |pat| > 0 && pat[0] !in s
    ensures RemoveAll(s, pat) == s
    decreases |s|
  {
    if |s| >= |pat| {
      assert s[..|pat|][0] == s[0];
      RemoveAllAbsent(s[1..], pat);
    }
  }

  /** A pattern at the very end is removed and the rest kept, when the rest
      cannot start an occurrence. */
  lemma {:induction false} RemoveAllSuffix(s: string, pat: string)
    requires |pat| > 0 && pat[0] !in s
    ensures RemoveAll(s + pat, pat) == s
    decreases |s|
  {
    if |s| == 0 {
      assert s + pat == pat;
      assert pat[|pat|..] == [];
    } else {
      assert (s + pat)[..|pat|][0] == s[0];
      assert (s + pat)[1..] == s[1..] + pat;
      RemoveAllSuffix(s[1..], pat);
    }
  }

  /** Deleting an opening and then a closing marker from a wrapped string
      gives back what was wrapped, when neither marker can start inside it. */
  lemma Unwrap(open: string, body: string, close: string)
    requires |open| > 0 && |close| > 0
    requires open[0] !in body + close && close[0] !in body
    ensures RemoveAll(RemoveAll(open + body + close, open), close) == body
  {
    var rest := body + close;
    var g := open + rest;
    assert open + body + close == g;
    assert g[..|open|] == open && g[|open|..] == rest;
    assert RemoveAll(g, open) == RemoveAll(rest, open);
    RemoveAllAbsent(rest, open);
    RemoveAllSuffix(body, close);
  }

  /** Deleting every occurrence is splitting at the occurrences and gluing
      the pieces back without separator, for every string: the same
      left-to-right, non-overlapping occurrences are found. With `JoinSplit`
      this says the result is the input with exactly the separators between
      the `split` pieces removed. */
  lemma {:induction false} RemoveAllIsSplit(s: string, pat: string)
    requires |pat| > 0
    ensures RemoveAll(s, pat) == Join(Split(s, pat), [])
    decreases |s|
  {
    if |s| >= |pat| {
      if s[..|pat|] == pat {
        RemoveAllIsSplit(s[|pat|..], pat);
        var rest := Split(s[|pat|..], pat);
        assert ([[]] + rest)[1..] == rest;
      } else {
        RemoveAllIsSplit(s[1..], pat);
        JoinCons(s[0], Split(s[1..], pat), []);
      }
    }
  }


  function Join(xs: seq<string>, sep: string): string
    decreases |xs|
  {
    if |xs| == 0 then []
    else if |xs| == 1 then xs[0]
    else xs[0] + sep + Join(xs[1..], sep)
  }

  /** A character found neither in the pieces nor in the separator is not in
      their join. */
  lemma {:induction false} JoinAvoids(xs: seq<string>, sep: string, c: char)
    requires c !in sep && forall k :: 0 <= k < |xs| ==> c !in xs[k]
    ensures c !in Join(xs, sep)
    decreases |xs|
  {
    if |xs| > 1 {
      JoinAvoids(xs[1..], sep, c);
    }
  }

  /** `s.split(sep)` with an explicit separator: the pieces between the
      occurrences of `sep`, found left to right without overlaps. */
  function Split(s: string, sep: string): (r: seq<string>)
    requires |sep| > 0
    ensures |r| >= 1
    decreases |s|
  {
    if |s| < |sep| then [s]
    else if s[..|sep|] == sep then [[]] + Split(s[|sep|..], sep)
    else
      var rest := Split(s[1..], sep);
      [[s[0]] + rest[0]] + rest[1..]
  }

  lemma JoinCons(c: char, rest: seq<string>, sep: string)
    requires |rest| >= 1
    ensures Join([[c] + rest[0]] + rest[1..], sep) == [c] + Join(rest, sep)
  {
    var r := [[c] + rest[0]] + rest[1..];
    if |rest| > 1 {
      assert r[1..] == rest[1..];
    }
  }

  /** Joining the pieces of a split gives back the string. */
  lemma {:induction false} JoinSplit(s: string, sep: string)
    requires |sep| > 0
    ensures Join(Split(s, sep), sep) == s
    decreases |s|
  {
    if |s| >= |sep| {
      if s[..|sep|] == sep {
        JoinSplit(s[|sep|..], sep);
        var rest := Split(s[|sep|..], sep);
        assert ([[]] + rest)[1..] == rest;
        assert s == sep + s[|sep|..];
      } else {
        JoinSplit(s[1..], sep);
        JoinCons(s[0], Split(s[1..], sep), sep);
        assert s == [s[0]] + s[1..];
      }
    }
  }

  /** A piece without the separator's first character is not split. */
  lemma {:induction false} SplitPlain(c: string, sep: string)
    requires |sep| > 0 && sep[0] !in c
    ensures Split(c, sep) == [c]
    decreases |c|
  {
    if |c| >= |sep| {
      assert c[..|sep|][0] == c[0];
      SplitPlain(c[1..], sep);
      assert [c[0]] + c[1..] == c;
    }
  }

  lemma {:induction false} SplitFirst(c: string, sep: string, rest: string)
    requires |sep| > 0 && sep[0] !in c
    ensures Split(c + sep + rest, sep) == [c] + Split(rest, sep)
    decreases |c|
  {
    var s := c + sep + rest;
    if |c| == 0 {
      assert s == sep + rest;
      assert s[..|sep|] == sep && s[|sep|..] == rest;
    } else {
      assert s[..|sep|][0] == c[0];
      assert s[1..] == c[1..] + sep + rest;
      SplitFirst(c[1..], sep, rest);
      assert [c[0]] + c[1..] == c;
    }
  }

  /** Splitting a join gives back the pieces when no piece holds the
      separator's first character. */
  lemma {:induction false} SplitJoin(xs: seq<string>, sep: string)
    requires |sep| > 0 && |xs| >= 1 && forall k :: 0 <= k < |xs| ==> sep[0] !in xs[k]
    ensures Split(Join(xs, sep), sep) == xs
    decreases |xs|
  {
    if |xs| == 1 {
      SplitPlain(xs[0], sep);
    } else {
      SplitJoin(xs[1..], sep);
      SplitFirst(xs[0], sep, Join(xs[1..], sep));
      assert xs == [xs[0]] + xs[1..];
    }
  }
}
