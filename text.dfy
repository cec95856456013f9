/**
 * The Python `str` operations the codec is built from, on `string` (a `seq<char>`):
 * `pat in s`, `s.split(sep)` and `s.replace(pat, rep)`, all resting on `Find`, the leftmost
 * search Python's `s.find(pat)` performs; `sep.join(parts)`, which `show_users` uses, states
 * what `replace` and `split` give back; `s.startswith(p)` is Dafny's prefix test `p <= s`.
 */
module Text {

  /** Python's `\d`, taken as the ASCII digits. */
  predicate IsDigit(c: char)
  {
    '0' <= c <= '9'
  }

  predicate AllDigits(s: string)
  {
    forall i :: 0 <= i < |s| ==> IsDigit(s[i])
  }

  /** Python's `\w`, taken as the ASCII word characters: letters, digits and underscore. */
  predicate IsWordChar(c: char)
  {
    IsDigit(c) || 'a' <= c <= 'z' || 'A' <= c <= 'Z' || c == '_'
  }

  /** `pat` occurs in `s` starting at index `i`. */
  predicate OccursAt(s: string, pat: string, i: nat)
  {
    i + |pat| <= |s| && s[i..i + |pat|] == pat
  }

  /** The leftmost occurrence of `pat` in `s` at index `from` or later, or -1. */
  function FindFrom(s: string, pat: string, from: nat): (r: int)
    ensures r == -1 || (from <= r && OccursAt(s, pat, r))
    ensures r == -1 ==> forall j: nat :: from <= j ==> !OccursAt(s, pat, j)
    ensures r >= 0 ==> forall j: nat :: from <= j < r ==> !OccursAt(s, pat, j)
    decreases |s| - from
  {
    if from + |pat| > |s| then -1
    else if OccursAt(s, pat, from) then from
    else FindFrom(s, pat, from + 1)
  }

  /**
   * The leftmost search behind `in`, `split` and `replace` (Python's `s.find(pat)`): the index of
   * the leftmost occurrence of `pat`, or -1.
   */
  function Find(s: string, pat: string): (r: int)
    ensures r == -1 || (0 <= r && OccursAt(s, pat, r))
    ensures r == -1 ==> forall j: nat :: !OccursAt(s, pat, j)
    ensures r >= 0 ==> forall j: nat :: j < r ==> !OccursAt(s, pat, j)
  {
    FindFrom(s, pat, 0)
  }

  /** Python's `pat in s`: substring containment, anchored nowhere. */
  predicate Contains(s: string, pat: string)
  {
    Find(s, pat) >= 0
  }

  lemma ContainsIff(s: string, pat: string)
    ensures Contains(s, pat) <==> exists i: nat :: OccursAt(s, pat, i)
  {
    if Contains(s, pat) {
      assert OccursAt(s, pat, Find(s, pat));
    }
  }

  /** An occurrence anywhere makes `pat in s` true. */
  lemma OccursContains(s: string, pat: string, i: nat)
    requires OccursAt(s, pat, i)
    ensures Contains(s, pat)
  {
  }

  /** Containment survives putting text on either side. */
  lemma ContainsConcat(a: string, b: string, x: string)
    requires Contains(a, x) || Contains(b, x)
    ensures Contains(a + b, x)
  {
    if Contains(a, x) {
      var i := Find(a, x);
      SliceOfLeft(a, b, i, i + |x|);
      OccursContains(a + b, x, i);
    } else {
      var i := Find(b, x);
      SliceOfRight(a, b, |a| + i, |a| + i + |x|);
      OccursContains(a + b, x, |a| + i);
    }
  }

  /** A slice contains whatever it contains as a part of the whole. */
  lemma ContainsSlice(s: string, lo: nat, hi: nat, x: string)
    requires lo <= hi <= |s|
    requires Contains(s[lo..hi], x)
    ensures Contains(s, x)
  {
    assert s == s[..lo] + s[lo..hi] + s[hi..];
    ContainsConcat(s[..lo], s[lo..hi], x);
    ContainsConcat(s[..lo] + s[lo..hi], s[hi..], x);
  }

  /** What a prefix contains, the whole text contains. */
  lemma ContainsOfPrefix(s: string, i: nat, x: string)
    requires i <= |s| && Contains(s[..i], x)
    ensures Contains(s, x)
  {
    assert s == s[..i] + s[i..];
    ContainsConcat(s[..i], s[i..], x);
  }

  /** What a suffix contains, the whole text contains. */
  lemma ContainsOfSuffix(s: string, i: nat, x: string)
    requires i <= |s| && Contains(s[i..], x)
    ensures Contains(s, x)
  {
    assert s == s[..i] + s[i..];
    ContainsConcat(s[..i], s[i..], x);
  }

  /** What a text does not contain, neither side of a cut in it contains. */
  lemma AvoidAroundCut(s: string, k: nat, x: string)
    requires k <= |s| && !Contains(s, x)
    ensures !Contains(s[..k], x) && !Contains(s[k..], x)
  {
    if Contains(s[..k], x) {
      ContainsOfPrefix(s, k, x);
    }
    if Contains(s[k..], x) {
      ContainsOfSuffix(s, k, x);
    }
  }

  /** Containment is transitive. */
  lemma ContainsTrans(a: string, b: string, c: string)
    requires Contains(a, b) && Contains(b, c)
    ensures Contains(a, c)
  {
    var i := Find(a, b);
    var j := Find(b, c);
    forall t | 0 <= t < |c|
      ensures a[i + j + t] == c[t]
    {
      assert b[j..j + |c|][t] == c[t];
      assert a[i..i + |b|][j + t] == b[j + t];
    }
    assert a[i + j..i + j + |c|] == c;
    OccursContains(a, c, i + j);
  }

  /** Python's `s.replace(pat, rep)`: every non-overlapping occurrence, scanned left to right. */
  function ReplaceAll(s: string, pat: string, rep: string): (r: string)
    requires pat != ""
    ensures |rep| <= |pat| ==> |r| <= |s|
    ensures |rep| >= |pat| ==> |r| >= |s|
    decreases |s|
  {
    var i := Find(s, pat);
    if i == -1 then s else s[..i] + rep + ReplaceAll(s[i + |pat|..], pat, rep)
  }

  /** Deleting a pattern from two copies of itself leaves nothing. */
  lemma ReplaceDoubled(p: string)
    requires p != ""
    ensures ReplaceAll(p + p, p, "") == ""
  {
    var d := p + p;
    assert d[0..|p|] == p;
    FindUnique(d, p, 0);
    assert d[|p|..] == p;
    FindUnique(p, p, 0);
    assert p[|p|..] == "";
    assert Find("", p) == -1;
    assert ReplaceAll(p, p, "") == "" + "" + ReplaceAll("", p, "");
    assert ReplaceAll(d, p, "") == "" + "" + ReplaceAll(p, p, "");
  }

  /** Python's `s.split(sep)` with an explicit, non-empty separator. */
  function Split(s: string, sep: string): (parts: seq<string>)
    requires sep != ""
    ensures |parts| >= 1
    decreases |s|
  {
    var i := Find(s, sep);
    if i == -1 then [s] else [s[..i]] + Split(s[i + |sep|..], sep)
  }

  /** One step of `Split`: the part before the first separator, then the split of what follows. */
  lemma SplitStep(s: string, sep: string)
    requires sep != "" && Contains(s, sep)
    ensures Split(s, sep) == [s[..Find(s, sep)]] + Split(s[Find(s, sep) + |sep|..], sep)
  {
  }

  /** After the first part, the parts of `s.split(sep)` are those of the text after the first separator. */
  lemma SplitLaterPart(s: string, sep: string, k: nat)
    requires sep != "" && Contains(s, sep) && 1 <= k < |Split(s, sep)|
    ensures var rest := s[Find(s, sep) + |sep|..];
      k - 1 < |Split(rest, sep)| && Split(s, sep)[k] == Split(rest, sep)[k - 1]
  {
    SplitStep(s, sep);
  }

  /** `s.split(sep)` has one part more than the split of the text after the first separator. */
  lemma SplitCount(s: string, sep: string)
    requires sep != "" && Contains(s, sep)
    ensures |Split(s, sep)| == |Split(s[Find(s, sep) + |sep|..], sep)| + 1
  {
    SplitStep(s, sep);
  }

  /** The text before the first separator holds no separator. */
  lemma FirstPartFree(s: string, sep: string)
    requires sep != "" && Contains(s, sep)
    ensures Split(s, sep)[0] == s[..Find(s, sep)] && !Contains(s[..Find(s, sep)], sep)
  {
    var i := Find(s, sep);
    SplitStep(s, sep);
    forall q: nat | q + |sep| <= i
      ensures !OccursAt(s[..i], sep, q)
    {
      assert q < i && !OccursAt(s, sep, q);
      assert s[..i][q..q + |sep|] == s[q..q + |sep|];
    }
  }

  /** One step of `ReplaceAll`: the first occurrence is replaced, then the rest is processed. */
  lemma ReplaceStep(s: string, pat: string, rep: string)
    requires pat != "" && Contains(s, pat)
    ensures ReplaceAll(s, pat, rep) == s[..Find(s, pat)] + rep + ReplaceAll(s[Find(s, pat) + |pat|..], pat, rep)
  {
  }

  /** Two copies of `x` after a text where `x` first occurs after `a` are both removed. */
  lemma ReplaceTwiceAfter(a: string, x: string)
    requires x != "" && Find(a + x + x, x) == |a|
    ensures ReplaceAll(a + x + x, x, "") == a
  {
    var s := a + x + x;
    calc {
      ReplaceAll(s, x, "");
    == { ReplaceStep(s, x, ""); assert s[..|a|] == a; assert s[|a| + |x|..] == x; }
      a + "" + ReplaceAll(x, x, "");
    == { assert "" + x + "" == x; FindUnique(x, x, 0); ReplaceSole("", x, ""); }
      a;
    }
  }

  /** A slice inside the right operand of a concatenation is a slice of that operand. */
  lemma SliceOfRight(a: string, b: string, lo: nat, hi: nat)
    requires |a| <= lo <= hi <= |a| + |b|
    ensures (a + b)[lo..hi] == b[lo - |a|..hi - |a|]
  {
  }

  /** A slice inside the left operand of a concatenation is a slice of that operand. */
  lemma SliceOfLeft(a: string, b: string, lo: nat, hi: nat)
    requires lo <= hi <= |a|
    ensures (a + b)[lo..hi] == a[lo..hi]
  {
  }

  /** A slice cut at two inner points is the concatenation of its three pieces. */
  lemma SliceInThree(s: string, a: nat, b: nat, c: nat, d: nat)
    requires a <= b <= c <= d <= |s|
    ensures s[a..d] == s[a..b] + s[b..c] + s[c..d]
  {
  }

  /** Python's `sep.join(parts)`. */
  function Join(parts: seq<string>, sep: string): string
  {
    if |parts| == 0 then ""
    else if |parts| == 1 then parts[0]
    else parts[0] + sep + Join(parts[1..], sep)
  }

  /** The lines of a text, as `text.split("\n")` gives them. */
  function Lines(s: string): (lines: seq<string>)
    ensures |lines| >= 1
  {
    Split(s, "\n")
  }

  /** An occurrence with none before it is what `find` returns. */
  lemma FindUnique(s: string, pat: string, i: nat)
    requires OccursAt(s, pat, i)
    requires forall j: nat :: j < i ==> !OccursAt(s, pat, j)
    ensures Find(s, pat) == i
  {
  }

  /** Absent from each side and from every straddling position, absent from the concatenation. */
  lemma NotContainsConcat(a: string, b: string, x: string)
    requires !Contains(a, x) && !Contains(b, x)
    requires forall q: nat :: q < |a| < q + |x| ==> !OccursAt(a + b, x, q)
    ensures !Contains(a + b, x)
  {
    if Contains(a + b, x) {
      var q := Find(a + b, x);
      if q + |x| <= |a| {
        SliceOfLeft(a, b, q, q + |x|);
        OccursContains(a, x, q);
      } else if q >= |a| {
        SliceOfRight(a, b, q, q + |x|);
        OccursContains(b, x, q - |a|);
      }
    }
  }

  // ---------------------------------------------------------------------------
  // split and join
  // ---------------------------------------------------------------------------

  /** `s.split(sep)` has one part exactly when `sep` does not occur. */
  lemma SplitSingle(s: string, sep: string)
    requires sep != ""
    ensures |Split(s, sep)| == 1 <==> !Contains(s, sep)
    ensures !Contains(s, sep) ==> Split(s, sep) == [s]
  {
  }

  /** The first part is the text before the first separator; the rest is the split of what follows it. */
  lemma SplitHead(s: string, sep: string)
    requires sep != "" && Contains(s, sep)
    ensures Split(s, sep)[0] == s[..Find(s, sep)]
    ensures Split(s, sep)[1..] == Split(s[Find(s, sep) + |sep|..], sep)
  {
  }

  /** A text is what comes before an occurrence, the occurrence, and what follows it. */
  lemma AroundOccurrence(s: string, pat: string, i: nat)
    requires OccursAt(s, pat, i)
    ensures s == s[..i] + pat + s[i + |pat|..]
  {
    assert s[..i] + s[i..i + |pat|] + s[i + |pat|..] == s;
  }

  /** Joining a head in front of at least one more part puts the separator after it. */
  lemma JoinCons(head: string, tail: seq<string>, sep: string)
    requires tail != []
    ensures Join([head] + tail, sep) == head + sep + Join(tail, sep)
  {
    assert ([head] + tail)[1..] == tail;
  }

  /** Joining the parts with the separator gives the text back. */
  lemma {:induction false} JoinSplit(s: string, sep: string)
    requires sep != ""
    ensures Join(Split(s, sep), sep) == s
    decreases |s|
  {
    if Contains(s, sep) {
      var i := Find(s, sep);
      var rest := s[i + |sep|..];
      JoinSplit(rest, sep);
      AroundOccurrence(s, sep, i);
      SplitStep(s, sep);
      JoinCons(s[..i], Split(rest, sep), sep);
    }
  }

  /** No part of `s.split(sep)` contains `sep`. */
  lemma {:induction false} SplitPartsFree(s: string, sep: string)
    requires sep != ""
    ensures forall k :: 0 <= k < |Split(s, sep)| ==> !Contains(Split(s, sep)[k], sep)
    decreases |s|
  {
    if !Contains(s, sep) {
      SplitSingle(s, sep);
    } else {
      var rest := s[Find(s, sep) + |sep|..];
      SplitPartsFree(rest, sep);
      FirstPartFree(s, sep);
      forall k | 0 <= k < |Split(s, sep)|
        ensures !Contains(Split(s, sep)[k], sep)
      {
        if k > 0 {
          SplitLaterPart(s, sep, k);
        }
      }
    }
  }

  /** Every part of `s.split(sep)` is a piece of `s`, so what a part contains `s` contains. */
  lemma {:induction false} SplitPartContained(s: string, sep: string, k: nat, x: string)
    requires sep != "" && k < |Split(s, sep)|
    requires Contains(Split(s, sep)[k], x)
    ensures Contains(s, x)
    decreases |s|
  {
    if k == 0 {
      FirstPartContained(s, sep, x);
    } else {
      SplitSingle(s, sep);
      var rest := s[Find(s, sep) + |sep|..];
      assert Contains(rest, x) by {
        SplitLaterPart(s, sep, k);
        SplitPartContained(rest, sep, k - 1, x);
      }
      ContainsOfSuffix(s, Find(s, sep) + |sep|, x);
    }
  }

  /** The first part of `s.split(sep)` is a prefix of `s`. */
  lemma FirstPartContained(s: string, sep: string, x: string)
    requires sep != "" && Contains(Split(s, sep)[0], x)
    ensures Contains(s, x)
  {
    if !Contains(s, sep) {
      SplitSingle(s, sep);
    } else {
      var i := Find(s, sep);
      assert Split(s, sep)[0] == s[..i] by {
        SplitStep(s, sep);
      }
      ContainsOfPrefix(s, i, x);
    }
  }

  /** Where a one-character separator first occurs in `a + sep + b`. */
  lemma FindCharConcat(a: string, c: char, b: string)
    ensures Find(a + [c] + b, [c]) == if Find(a, [c]) == -1 then |a| else Find(a, [c])
  {
    var s := a + [c] + b;
    var f := Find(a, [c]);
    if f == -1 {
      forall j: nat | j < |a|
        ensures !OccursAt(s, [c], j)
      {
        assert s[j..j + 1] == a[j..j + 1];
        assert !OccursAt(a, [c], j);
      }
      assert s[|a|..|a| + 1] == [c];
      FindUnique(s, [c], |a|);
    } else {
      forall j: nat | j < f
        ensures !OccursAt(s, [c], j)
      {
        assert s[j..j + 1] == a[j..j + 1];
        assert !OccursAt(a, [c], j);
      }
      assert s[f..f + 1] == a[f..f + 1];
      FindUnique(s, [c], f);
    }
  }

  /** Splitting on a one-character separator distributes over a separator between two texts. */
  lemma {:induction false} SplitCharConcat(a: string, c: char, b: string)
    ensures Split(a + [c] + b, [c]) == Split(a, [c]) + Split(b, [c])
    decreases |a|
  {
    var s := a + [c] + b;
    var f := Find(a, [c]);
    FindCharConcat(a, c, b);
    if f == -1 {
      assert s[..|a|] == a;
      assert s[|a| + 1..] == b;
    } else {
      var a' := a[f + 1..];
      assert s[..f] == a[..f];
      assert s[f + 1..] == a' + [c] + b;
      SplitCharConcat(a', c, b);
    }
  }

  /** The index of a part holding a given occurrence-free-of-`c` pattern of the text. */
  lemma {:induction false} PartContaining(s: string, c: char, x: string) returns (k: nat)
    requires c !in x && Contains(s, x)
    ensures k < |Split(s, [c])| && Contains(Split(s, [c])[k], x)
    decreases |s|
  {
    if !Contains(s, [c]) {
      SplitSingle(s, [c]);
      k := 0;
    } else {
      var i := Find(s, [c]);
      var rest := s[i + 1..];
      assert s[i..i + 1][0] == s[i];
      OccurrenceAroundChar(s, c, x, i, Find(s, x));
      if Contains(s[..i], x) {
        FirstPartFree(s, [c]);
        k := 0;
      } else {
        var j := PartContaining(rest, c, x);
        SplitCount(s, [c]);
        SplitLaterPart(s, [c], j + 1);
        k := j + 1;
      }
    }
  }

  /**
   * A pattern without the separator character occurs in a text exactly when it occurs
   * within one of the text's parts.
   */
  lemma ContainsInSomePart(s: string, c: char, x: string)
    requires c !in x
    ensures Contains(s, x) <==> exists k :: 0 <= k < |Split(s, [c])| && Contains(Split(s, [c])[k], x)
  {
    if Contains(s, x) {
      var k := PartContaining(s, c, x);
    }
    if exists k :: 0 <= k < |Split(s, [c])| && Contains(Split(s, [c])[k], x) {
      var k :| 0 <= k < |Split(s, [c])| && Contains(Split(s, [c])[k], x);
      SplitPartContained(s, [c], k, x);
    }
  }

  /** An occurrence of a pattern free of `c` lies wholly before or wholly after a `c` at index `i`. */
  lemma OccurrenceAroundChar(s: string, c: char, x: string, i: nat, q: nat)
    requires c !in x && i < |s| && s[i] == c && OccursAt(s, x, q)
    ensures q + |x| <= i ==> Contains(s[..i], x)
    ensures q + |x| > i ==> q > i && Contains(s[i + 1..], x)
  {
    if q + |x| <= i {
      assert s[..i][q..q + |x|] == s[q..q + |x|];
      OccursContains(s[..i], x, q);
    } else if q > i {
      assert s[i + 1..][q - i - 1..q - i - 1 + |x|] == s[q..q + |x|];
      OccursContains(s[i + 1..], x, q - i - 1);
    }
  }

  /** Number of occurrences of a character. */
  function CountChar(s: string, c: char): nat
  {
    multiset(s)[c]
  }

  /** A text has one more line than it has newline characters. */
  lemma {:induction false} SplitCharCount(s: string, c: char)
    ensures |Split(s, [c])| == CountChar(s, c) + 1
    decreases |s|
  {
    if !Contains(s, [c]) {
      SplitSingle(s, [c]);
      CharAbsent(s, c);
    } else {
      var i := Find(s, [c]);
      var rest := s[i + 1..];
      SplitCharCount(rest, c);
      SplitCount(s, [c]);
      FirstPartFree(s, [c]);
      CharAbsent(s[..i], c);
      AroundOccurrence(s, [c], i);
      CountConcat(s[..i], [c], c);
      CountConcat(s[..i] + [c], rest, c);
    }
  }

  // ---------------------------------------------------------------------------
  // replace
  // ---------------------------------------------------------------------------

  /** `s.replace(pat, rep)` is `rep.join(s.split(pat))`. */
  lemma {:induction false} ReplaceIsJoinSplit(s: string, pat: string, rep: string)
    requires pat != ""
    ensures ReplaceAll(s, pat, rep) == Join(Split(s, pat), rep)
    decreases |s|
  {
    if Contains(s, pat) {
      var i := Find(s, pat);
      var rest := s[i + |pat|..];
      ReplaceIsJoinSplit(rest, pat, rep);
      ReplaceStep(s, pat, rep);
      SplitStep(s, pat);
      JoinCons(s[..i], Split(rest, pat), rep);
    }
  }

  /**
   * Without an occurrence `replace` returns the text; with one, a shorter replacement makes the
   * text strictly shorter and a longer one strictly longer.
   */
  lemma ReplaceChanges(s: string, pat: string, rep: string)
    requires pat != ""
    ensures !Contains(s, pat) ==> ReplaceAll(s, pat, rep) == s
    ensures Contains(s, pat) && |rep| < |pat| ==> |ReplaceAll(s, pat, rep)| < |s|
    ensures Contains(s, pat) && |rep| > |pat| ==> |ReplaceAll(s, pat, rep)| > |s|
  {
    if Contains(s, pat) {
      ReplaceStep(s, pat, rep);
    }
  }

  /** The pattern occurs exactly once: at its first occurrence, and nowhere after it. */
  predicate OccursOnce(s: string, pat: string)
  {
    var i := Find(s, pat);
    i >= 0 && !Contains(s[i + |pat|..], pat)
  }

  /** With exactly one occurrence, `replace` swaps that one region and keeps the rest byte for byte. */
  lemma ReplaceOnce(s: string, pat: string, rep: string)
    requires pat != "" && OccursOnce(s, pat)
    ensures var i := Find(s, pat);
      ReplaceAll(s, pat, rep) == s[..i] + rep + s[i + |pat|..]
  {
  }

  /** Replacing a pattern by a text, neither containing `c`, keeps the count of `c`. */
  lemma {:induction false} ReplaceKeepsCount(s: string, pat: string, rep: string, c: char)
    requires pat != "" && c !in pat && c !in rep
    ensures CountChar(ReplaceAll(s, pat, rep), c) == CountChar(s, c)
    decreases |s|
  {
    if Contains(s, pat) {
      var i := Find(s, pat);
      var rest := s[i + |pat|..];
      ReplaceKeepsCount(rest, pat, rep, c);
      ReplaceStep(s, pat, rep);
      AroundOccurrence(s, pat, i);
      CountConcat(s[..i], pat, c);
      CountConcat(s[..i] + pat, rest, c);
      var r := ReplaceAll(rest, pat, rep);
      CountConcat(s[..i], rep, c);
      CountConcat(s[..i] + rep, r, c);
      assert CountChar(pat, c) == 0 && CountChar(rep, c) == 0;
    } else {
      ReplaceChanges(s, pat, rep);
    }
  }

  /** Counting a character in a concatenation adds the counts of the parts. */
  lemma CountConcat(a: string, b: string, c: char)
    ensures CountChar(a + b, c) == CountChar(a, c) + CountChar(b, c)
  {
    assert multiset(a + b) == multiset(a) + multiset(b);
  }

  /** A character that does not occur in a text is not contained in it as a one-character pattern. */
  lemma CharNotContained(s: string, c: char)
    requires c !in s
    ensures !Contains(s, [c])
  {
    forall j: nat | j + 1 <= |s|
      ensures !OccursAt(s, [c], j)
    {
      assert s[j..j + 1][0] == s[j];
    }
  }

  /** A text that does not contain `[c]` has no `c` at all. */
  lemma CharAbsent(s: string, c: char)
    requires !Contains(s, [c])
    ensures c !in s && CountChar(s, c) == 0
  {
    forall j | 0 <= j < |s|
      ensures s[j] != c
    {
      assert !OccursAt(s, [c], j);
      assert s[j..j + 1][0] == s[j];
    }
  }

  /** The part before the first separator: a prefix free of the separator, cut exactly at it. */
  lemma SplitFirstPart(s: string, sep: string)
    requires sep != ""
    ensures var p := Split(s, sep)[0];
      && p <= s && !Contains(p, sep) && (p == s || OccursAt(s, sep, |p|))
      && forall j: nat :: j < |p| ==> !OccursAt(s, sep, j)
  {
    SplitPartsFree(s, sep);
    SplitSingle(s, sep);
    if Contains(s, sep) {
      SplitStep(s, sep);
    }
  }

  /**
   * `s.split(m)[1].split(stop)[0]` for a text containing `m`: the text right after the first
   * `m`, cut before the next `m` or the first `stop`, whichever comes first. No `m` starts
   * before the cut, and no `stop` either when a `stop` cannot run into the next `m` (the first
   * character of `m` is not in `stop`).
   */
  lemma SegmentAfter(s: string, m: string, stop: string)
    requires m != "" && stop != "" && Contains(s, m)
    ensures |Split(s, m)| >= 2
    ensures var after := s[Find(s, m) + |m|..];
      var v := Split(Split(s, m)[1], stop)[0];
      && v <= after && !Contains(v, stop) && !Contains(v, m)
      && (v == after || OccursAt(after, stop, |v|) || OccursAt(after, m, |v|))
      && (forall j: nat :: j < |v| ==> !OccursAt(after, m, j))
      && (m[0] !in stop ==> forall j: nat :: j < |v| ==> !OccursAt(after, stop, j))
  {
    var after := s[Find(s, m) + |m|..];
    SplitCount(s, m);
    SplitLaterPart(s, m, 1);
    var seg := Split(s, m)[1];
    SplitFirstPart(after, m);
    var v := Split(seg, stop)[0];
    SplitFirstPart(seg, stop);
    if Contains(v, m) {
      assert seg[..|v|] == v;
      ContainsOfPrefix(seg, |v|, m);
    }
    PrefixTrans(v, seg, after);
    if v != seg {
      PrefixOccurs(seg, after, stop, |v|);
    }
    if m[0] !in stop {
      forall j: nat | j < |v|
        ensures !OccursAt(after, stop, j)
      {
        StopInsideSegment(seg, after, m, stop, j);
      }
    }
  }

  /**
   * A `stop` that starts inside the segment `seg` before the next `m` lies wholly inside it,
   * when it cannot contain the first character of `m`.
   */
  lemma StopInsideSegment(seg: string, after: string, m: string, stop: string, j: nat)
    requires seg <= after && (seg == after || OccursAt(after, m, |seg|))
    requires m != "" && m[0] !in stop && j < |seg|
    requires !OccursAt(seg, stop, j)
    ensures !OccursAt(after, stop, j)
  {
    if j + |stop| <= |seg| {
      assert seg[j..j + |stop|] == after[j..j + |stop|];
    } else if j + |stop| <= |after| {
      assert after[|seg|] == after[j..j + |stop|][|seg| - j];
      assert after[|seg|] == after[|seg|..|seg| + |m|][0];
    }
  }

  /** Being a prefix is transitive. */
  lemma PrefixTrans(a: string, b: string, c: string)
    requires a <= b && b <= c
    ensures a <= c
  {
    assert c[..|a|] == b[..|a|];
  }

  /** An occurrence inside a prefix is an occurrence in the whole text. */
  lemma PrefixOccurs(p: string, s: string, pat: string, i: nat)
    requires p <= s && OccursAt(p, pat, i)
    ensures OccursAt(s, pat, i)
  {
    assert s[i..i + |pat|] == p[i..i + |pat|];
  }

  /**
   * Where `x` carries an all-digit `id` at offset `off`, preceded by non-digits, `x` cannot
   * occur in `a + x + b` before `a` ends unless `a` already contains `id`.
   */
  lemma NoOccurrenceBefore(a: string, x: string, b: string, id: string, off: nat)
    requires id != [] && AllDigits(id)
    requires 1 <= off && off + |id| <= |x| && x[off..off + |id|] == id
    requires forall t :: 0 <= t < off ==> !IsDigit(x[t])
    requires !Contains(a, id)
    ensures forall j: nat :: j < |a| ==> !OccursAt(a + x + b, x, j)
  {
    var s := a + x + b;
    forall j: nat | j < |a|
      ensures !OccursAt(s, x, j)
    {
      if j + |x| <= |s| {
        var lo := j + off;
        if lo + |id| <= |a| {
          assert !OccursAt(a, id, lo);
          assert s[lo..lo + |id|] == a[lo..lo + |id|];
          assert s[j..j + |x|][off..off + |id|] == s[lo..lo + |id|];
        } else if lo >= |a| {
          assert s[lo] == x[lo - |a|] && !IsDigit(s[lo]);
          assert IsDigit(x[off]) by { assert x[off] == id[0]; }
          assert s[j..j + |x|][off] == s[lo];
        } else {
          assert s[|a|] == x[0] && !IsDigit(s[|a|]);
          assert IsDigit(x[|a| - j]) by { assert x[|a| - j] == id[|a| - lo]; }
          assert s[j..j + |x|][|a| - j] == s[|a|];
        }
      }
    }
  }

  /** Under the hypotheses of `NoOccurrenceBefore`, `x` is first found right after `a`. */
  lemma FoundAfter(a: string, x: string, b: string, id: string, off: nat)
    requires id != [] && AllDigits(id)
    requires 1 <= off && off + |id| <= |x| && x[off..off + |id|] == id
    requires forall t :: 0 <= t < off ==> !IsDigit(x[t])
    requires !Contains(a, id)
    ensures Find(a + x + b, x) == |a|
  {
    NoOccurrenceBefore(a, x, b, id, off);
    assert (a + x + b)[|a|..|a| + |x|] == x;
    FindUnique(a + x + b, x, |a|);
  }

  /** A text that lacks a piece of `x` lacks `x`. */
  lemma NotContainsVia(b: string, x: string, id: string)
    requires Contains(x, id) && !Contains(b, id)
    ensures !Contains(b, x)
  {
    if Contains(b, x) {
      ContainsTrans(b, x, id);
    }
  }

  /** Deleting a pattern found first right after `a`, and absent after it, leaves `a + b`. */
  lemma ReplaceSole(a: string, x: string, b: string)
    requires x != "" && Find(a + x + b, x) == |a| && !Contains(b, x)
    ensures ReplaceAll(a + x + b, x, "") == a + b
  {
    var s := a + x + b;
    calc {
      ReplaceAll(s, x, "");
    == { ReplaceStep(s, x, ""); }
      s[..|a|] + "" + ReplaceAll(s[|a| + |x|..], x, "");
    == { assert s[..|a|] == a; assert s[|a| + |x|..] == b; }
      a + "" + ReplaceAll(b, x, "");
    == { ReplaceChanges(b, x, ""); }
      a + b;
    }
  }

  /** An occurrence of a pattern that ends in a line break cannot end inside a tail without one. */
  lemma BreakEndsBefore(a: string, b: string, pat: string, p: nat)
    requires OccursAt(a + b, pat, p) && |pat| > 0 && pat[|pat| - 1] == '\n' && '\n' !in b
    ensures p + |pat| <= |a|
  {
    var q := p + |pat| - 1;
    assert (a + b)[q] == '\n' by {
      assert (a + b)[p..p + |pat|][|pat| - 1] == (a + b)[q];
    }
  }

  /** An occurrence inside an occurrence is an occurrence in the whole text. */
  lemma OccursInside(s: string, pat: string, p: nat, sub: string, k: nat)
    requires OccursAt(s, pat, p) && OccursAt(pat, sub, k)
    ensures OccursAt(s, sub, p + k)
  {
    forall t | 0 <= t < |sub|
      ensures s[p + k + t] == sub[t]
    {
      assert sub[t] == pat[k..k + |sub|][t] == pat[k + t];
      assert pat[k + t] == s[p..p + |pat|][k + t];
    }
    assert s[p + k..p + k + |sub|] == sub;
  }

  /** An occurrence that ends within the left operand is an occurrence in it. */
  lemma OccursInPrefix(a: string, b: string, pat: string, p: nat)
    requires OccursAt(a + b, pat, p) && p + |pat| <= |a|
    ensures OccursAt(a, pat, p)
  {
    assert (a + b)[p..p + |pat|] == a[p..p + |pat|];
  }

  /**
   * A pattern that ends in a line break and carries `x` before that break does not start
   * anywhere in `a + "\n" + b`, when `b` has no line break and `a` does not contain `x`.
   */
  lemma LastLineAvoids(a: string, b: string, pat: string, x: string, off: nat, p: nat)
    requires |pat| > 0 && pat[|pat| - 1] == '\n' && '\n' !in b
    requires OccursAt(pat, x, off) && off + |x| < |pat|
    requires !Contains(a, x)
    ensures !OccursAt(a + "\n" + b, pat, p)
  {
    if OccursAt(a + "\n" + b, pat, p) {
      BreakEndsBefore(a + "\n", b, pat, p);
      OccursInside(a + "\n" + b, pat, p, x, off);
      assert a + "\n" + b == a + ("\n" + b);
      OccursInPrefix(a, "\n" + b, x, p + off);
      assert false;
    }
  }

  /** What a text does not contain, none of its lines contains. */
  lemma LinesAvoid(s: string, x: string)
    requires !Contains(s, x)
    ensures forall k :: 0 <= k < |Lines(s)| ==> !Contains(Lines(s)[k], x)
  {
    forall k | 0 <= k < |Lines(s)|
      ensures !Contains(Lines(s)[k], x)
    {
      if Contains(Lines(s)[k], x) {
        SplitPartContained(s, "\n", k, x);
      }
    }
  }

  /** A line without a break, put between two texts with breaks around it, is one line of the result. */
  lemma LinesAround(before: string, mid: string, after: string)
    requires '\n' !in mid
    ensures Lines(before + "\n" + (mid + "\n" + after)) == Lines(before) + [mid] + Lines(after)
  {
    assert "\n" == ['\n'];
    SplitCharConcat(before, '\n', mid + "\n" + after);
    SplitCharConcat(mid, '\n', after);
    CharNotContained(mid, '\n');
    SplitSingle(mid, "\n");
  }
}
