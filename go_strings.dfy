/**
 * The three routines of Go's `strings` package that the templater relies on:
 * `strings.Split` (override keys are split on ":" and on "."), `strings.Join`
 * (the inverse of Split) and `strings.ReplaceAll` (the `tpl` function strips
 * the "<no value>" marker). All three are defined for a non-empty separator,
 * which is the only way the templater calls them.
 */
module GoStrings {

  /** The pieces of `s` between the occurrences of `sep`, found left to right
      without overlap; `n` occurrences give `n + 1` pieces. */
  function Split(s: string, sep: string): (parts: seq<string>)
    requires sep != []
    ensures |parts| >= 1
    decreases |s|
  {
    if |s| < |sep| then [s]
    else if s[..|sep|] == sep then [""] + Split(s[|sep|..], sep)
    else
      var rest := Split(s[1..], sep);
      [[s[0]] + rest[0]] + rest[1..]
  }

  /** The pieces concatenated with `sep` between consecutive ones. */
  function Join(parts: seq<string>, sep: string): string
  {
    if parts == [] then ""
    else if |parts| == 1 then parts[0]
    else parts[0] + sep + Join(parts[1..], sep)
  }

  /** Every non-overlapping occurrence of `pat`, found left to right, replaced
      by `rep`. */
  function ReplaceAll(s: string, pat: string, rep: string): string
    requires pat != []
    decreases |s|
  {
    if |s| < |pat| then s
    else if s[..|pat|] == pat then rep + ReplaceAll(s[|pat|..], pat, rep)
    else [s[0]] + ReplaceAll(s[1..], pat, rep)
  }

  /** `sub` occurs in `s` at some position. */
  predicate Contains(s: string, sub: string)
  {
    exists i :: 0 <= i <= |s| - |sub| && s[i..][..|sub|] == sub
  }

  lemma JoinCons(x: string, rest: seq<string>, sep: string)
    requires rest != []
    ensures Join([x] + rest, sep) == x + sep + Join(rest, sep)
  {
    assert ([x] + rest)[1..] == rest;
  }

  /** Putting a character in front of the first piece puts it in front of
      the joined string. */
  lemma JoinExtendFirst(c: char, parts: seq<string>, sep: string)
    requires parts != []
    ensures Join([[c] + parts[0]] + parts[1..], sep) == [c] + Join(parts, sep)
  {
    if |parts| > 1 {
      JoinCons([c] + parts[0], parts[1..], sep);
      assert parts == [parts[0]] + parts[1..];
      JoinCons(parts[0], parts[1..], sep);
    }
  }

  /** Splitting at a leading separator gives an empty first piece. */
  lemma SplitAtSeparator(s: string, sep: string)
    requires sep != [] && |s| >= |sep| && s[..|sep|] == sep
    ensures Split(s, sep) == [""] + Split(s[|sep|..], sep)
  {
  }

  /** Splitting where no separator starts puts the first character in front
      of the first piece. */
  lemma SplitAtChar(s: string, sep: string)
    requires sep != [] && |s| >= |sep| && s[..|sep|] != sep
    ensures var rest := Split(s[1..], sep);
            Split(s, sep) == [[s[0]] + rest[0]] + rest[1..]
  {
  }

  /** One step of ReplaceAll at an occurrence of the pattern. */
  lemma ReplaceAllAtPattern(s: string, pat: string, rep: string)
    requires pat != [] && |s| >= |pat| && s[..|pat|] == pat
    ensures ReplaceAll(s, pat, rep) == rep + ReplaceAll(s[|pat|..], pat, rep)
  {
  }

  /** One step of ReplaceAll where the pattern does not start. */
  lemma ReplaceAllPastChar(s: string, pat: string, rep: string)
    requires pat != [] && |s| >= |pat| && s[..|pat|] != pat
    ensures ReplaceAll(s, pat, rep) == [s[0]] + ReplaceAll(s[1..], pat, rep)
  {
  }

  /** The same step, for a string given as its first character and the rest. */
  lemma ReplaceAllPastHead(c: char, rest: string, pat: string, rep: string)
    requires pat != [] && 1 + |rest| >= |pat| && ([c] + rest)[..|pat|] != pat
    ensures ReplaceAll([c] + rest, pat, rep) == [c] + ReplaceAll(rest, pat, rep)
  {
    assert ([c] + rest)[1..] == rest;
  }

  /** The pattern does not start at position `i` of `prefix + t`. */
  predicate MissesAt(prefix: string, t: string, pat: string, i: nat)
    requires i <= |prefix| && |t| >= |pat|
  {
    (prefix[i..] + t)[..|pat|] != pat
  }

  /** When the pattern starts at none of the positions of `prefix`, one
      pass copies `prefix` and goes on with `t`. */
  lemma {:induction false} ReplaceAllKeepsPrefix(prefix: string, t: string, pat: string, rep: string)
    requires pat != [] && |t| >= |pat|
    requires forall i :: 0 <= i < |prefix| ==> MissesAt(prefix, t, pat, i)
    ensures ReplaceAll(prefix + t, pat, rep) == prefix + ReplaceAll(t, pat, rep)
    decreases |prefix|
  {
    if prefix == [] {
      assert prefix + t == t;
    } else {
      MissesAfterHead(prefix, t, pat);
      ReplaceAllKeepsPrefix(prefix[1..], t, pat, rep);
      ReplaceAllPastPrefixHead(prefix, t, pat, rep);
    }
  }

  /** The positions of `prefix` after its first are the positions of its tail. */
  lemma MissesAfterHead(prefix: string, t: string, pat: string)
    requires pat != [] && |t| >= |pat| && prefix != []
    requires forall i :: 0 <= i < |prefix| ==> MissesAt(prefix, t, pat, i)
    ensures forall i :: 0 <= i < |prefix| - 1 ==> MissesAt(prefix[1..], t, pat, i)
  {
    forall i | 0 <= i < |prefix| - 1
      ensures MissesAt(prefix[1..], t, pat, i)
    {
      assert MissesAt(prefix, t, pat, i + 1);
      assert prefix[1..][i..] == prefix[i + 1..];
    }
  }

  /** One step of the pass over the first character of `prefix`. */
  lemma ReplaceAllPastPrefixHead(prefix: string, t: string, pat: string, rep: string)
    requires pat != [] && |t| >= |pat| && prefix != [] && MissesAt(prefix, t, pat, 0)
    requires ReplaceAll(prefix[1..] + t, pat, rep) == prefix[1..] + ReplaceAll(t, pat, rep)
    ensures ReplaceAll(prefix + t, pat, rep) == prefix + ReplaceAll(t, pat, rep)
  {
    ConcatAtHead(prefix, t, pat);
    ReplaceAllPastChar(prefix + t, pat, rep);
    ConsOntoConcat(prefix, ReplaceAll(t, pat, rep));
  }

  /** `prefix + t` seen from its first character. */
  lemma ConcatAtHead(prefix: string, t: string, pat: string)
    requires |t| >= |pat| && prefix != [] && MissesAt(prefix, t, pat, 0)
    ensures (prefix + t)[..|pat|] != pat
    ensures (prefix + t)[0] == prefix[0] && (prefix + t)[1..] == prefix[1..] + t
  {
    assert prefix[0..] == prefix;
  }

  lemma ConsOntoConcat(prefix: string, u: string)
    requires prefix != []
    ensures [prefix[0]] + (prefix[1..] + u) == prefix + u
  {
    assert prefix == [prefix[0]] + prefix[1..];
  }

  /** Joining the pieces of a split with the same separator gives the
      original string back. */
  lemma {:induction false} JoinSplit(s: string, sep: string)
    requires sep != []
    ensures Join(Split(s, sep), sep) == s
    decreases |s|
  {
    if |s| < |sep| {
    } else if s[..|sep|] == sep {
      var rest := Split(s[|sep|..], sep);
      SplitAtSeparator(s, sep);
      JoinSplit(s[|sep|..], sep);
      JoinCons("", rest, sep);
      assert s == sep + s[|sep|..];
    } else {
      var rest := Split(s[1..], sep);
      SplitAtChar(s, sep);
      JoinSplit(s[1..], sep);
      JoinExtendFirst(s[0], rest, sep);
      assert s == [s[0]] + s[1..];
    }
  }

  /** `strings.ReplaceAll` is a split on `pat` followed by a join with
      `rep`: the occurrences it replaces are exactly the separators Split
      cuts at. */
  lemma {:induction false} ReplaceAllIsSplitJoin(s: string, pat: string, rep: string)
    requires pat != []
    ensures ReplaceAll(s, pat, rep) == Join(Split(s, pat), rep)
    decreases |s|
  {
    if |s| < |pat| {
    } else if s[..|pat|] == pat {
      var rest := Split(s[|pat|..], pat);
      SplitAtSeparator(s, pat);
      ReplaceAllIsSplitJoin(s[|pat|..], pat, rep);
      JoinCons("", rest, rep);
    } else {
      var rest := Split(s[1..], pat);
      SplitAtChar(s, pat);
      ReplaceAllIsSplitJoin(s[1..], pat, rep);
      JoinExtendFirst(s[0], rest, rep);
    }
  }

  /** A string that does not contain `pat` comes back unchanged. */
  lemma {:induction false} ReplaceAllWithoutOccurrence(s: string, pat: string, rep: string)
    requires pat != [] && !Contains(s, pat)
    ensures ReplaceAll(s, pat, rep) == s
    decreases |s|
  {
    if |s| >= |pat| {
      assert s[0..][..|pat|] != pat;
      assert s[..|pat|] != pat;
      ReplaceAllWithoutOccurrence(s[1..], pat, rep);
      assert s == [s[0]] + s[1..];
    }
  }

  /** With a one-character separator, the number of pieces is one more than
      the number of times the character occurs. */
  lemma {:induction false} SplitCount(s: string, c: char)
    ensures |Split(s, [c])| == multiset(s)[c] + 1
    decreases |s|
  {
    if s != [] {
      SplitCount(s[1..], c);
      assert s == [s[0]] + s[1..];
      assert s[..1] == [s[0]];
    }
  }

  /** Splitting on a one-character separator distributes over a
      concatenation around one occurrence of that character. */
  lemma {:induction false} SplitAround(x: string, c: char, y: string)
    ensures Split(x + [c] + y, [c]) == Split(x, [c]) + Split(y, [c])
    decreases |x|
  {
    var s := x + [c] + y;
    if x == [] {
      assert s[..1] == [c] && s[1..] == y;
    } else {
      assert s[..1] == [x[0]];
      assert s[1..] == x[1..] + [c] + y;
      SplitAround(x[1..], c, y);
      if x[0] == c {
        assert x[..1] == [c];
      } else {
        assert x[..1] != [c];
        var rx := Split(x[1..], [c]);
        assert Split(x, [c]) == [[x[0]] + rx[0]] + rx[1..];
      }
    }
  }

  /** A string without the separator character is a single piece. */
  lemma {:induction false} SplitWithout(s: string, c: char)
    requires c !in s
    ensures Split(s, [c]) == [s]
    decreases |s|
  {
    if s != [] {
      assert s[..1] == [s[0]];
      SplitWithout(s[1..], c);
      assert s == [s[0]] + s[1..];
    }
  }
}
