/**
 * The string operations the filter and the string comparator rely on:
 * lower-casing, `indexOf`, `split(' ')` and the `<` order on strings.
 * Characters are compared by code point; lower-casing covers ASCII only.
 */
module Text {

  /** Lower-cases one ASCII letter and leaves every other character alone. */
  function LowerChar(c: char): char {
    if 'A' <= c <= 'Z' then (c as int + 32) as char else c
  }

  /** `s.toLowerCase()`, restricted to ASCII letters. */
  function Lower(s: string): (r: string)
    ensures |r| == |s|
    ensures forall i :: 0 <= i < |s| ==> r[i] == LowerChar(s[i])
    ensures forall i :: 0 <= i < |r| ==> !('A' <= r[i] <= 'Z')
  {
    if s == [] then [] else [LowerChar(s[0])] + Lower(s[1..])
  }

  lemma {:induction false} LowerIdempotent(s: string)
    ensures Lower(Lower(s)) == Lower(s)
  {
    var l := Lower(s);
    assert forall i :: 0 <= i < |l| ==> LowerChar(l[i]) == l[i];
  }

  /** `needle` occurs in `hay` starting at position `i`. */
  ghost predicate OccursAt(needle: string, hay: string, i: int) {
    0 <= i && i + |needle| <= |hay| && hay[i..i + |needle|] == needle
  }

  /** `hay.indexOf(needle)`: the first position of `needle` in `hay`, or -1. */
  function IndexOf(hay: string, needle: string): (r: int)
    ensures -1 <= r
    ensures r >= 0 ==> OccursAt(needle, hay, r)
    ensures forall i :: 0 <= i && (r == -1 || i < r) ==> !OccursAt(needle, hay, i)
    decreases |hay|
  {
    if |needle| > |hay| then -1
    else if hay[..|needle|] == needle then 0
    else
      var k := IndexOf(hay[1..], needle);
      assert forall i :: 1 <= i ==> (OccursAt(needle, hay, i) <==> OccursAt(needle, hay[1..], i - 1)) by {
        forall i | 1 <= i ensures OccursAt(needle, hay, i) <==> OccursAt(needle, hay[1..], i - 1) {
          OccursShift(needle, hay, i);
        }
      }
      if k == -1 then -1 else k + 1
  }

  /** Dropping the first character of `hay` moves every occurrence one place left. */
  lemma OccursShift(needle: string, hay: string, i: int)
    requires 1 <= i && hay != []
    ensures OccursAt(needle, hay, i) <==> OccursAt(needle, hay[1..], i - 1)
  {
    if i + |needle| <= |hay| {
      var x, y := hay[i..i + |needle|], hay[1..][i - 1..i - 1 + |needle|];
      forall k | 0 <= k < |needle| ensures x[k] == y[k] { }
      assert x == y;
    }
  }

  /** Occurrence is transitive: a piece of a piece of `c` is a piece of `c`. */
  lemma OccursTrans(a: string, b: string, c: string, i: int, j: int)
    requires OccursAt(a, b, i) && OccursAt(b, c, j)
    ensures OccursAt(a, c, j + i)
  {
    var x, y, w := c[j + i..j + i + |a|], b[i..i + |a|], c[j..j + |b|];
    forall k | 0 <= k < |a| ensures x[k] == y[k] {
      assert w[i + k] == b[i + k];
    }
    assert x == y;
  }

  /** `s.split(' ')`: the pieces between the spaces, empty pieces included. */
  function Split(s: string): (tokens: seq<string>)
    ensures |tokens| >= 1
    ensures forall k :: 0 <= k < |tokens| ==> ' ' !in tokens[k]
    decreases |s|
  {
    var i := IndexOf(s, " ");
    if i < 0 then
      assert ' ' !in s by {
        forall j | 0 <= j < |s| ensures s[j] != ' ' { assert !OccursAt(" ", s, j); assert s[j..j + 1] == [s[j]]; }
      }
      [s]
    else
      assert ' ' !in s[..i] by {
        forall j | 0 <= j < i ensures s[j] != ' ' { assert !OccursAt(" ", s, j); assert s[j..j + 1] == [s[j]]; }
      }
      [s[..i]] + Split(s[i + 1..])
  }

  /** The inverse of `Split`: the tokens glued back with single spaces. */
  function Join(tokens: seq<string>): string
    requires |tokens| >= 1
  {
    if |tokens| == 1 then tokens[0] else tokens[0] + " " + Join(tokens[1..])
  }

  /** Splitting on spaces loses nothing: joining the tokens gives the string back. */
  lemma {:induction false} JoinSplit(s: string)
    ensures Join(Split(s)) == s
    decreases |s|
  {
    var i := IndexOf(s, " ");
    if i >= 0 {
      JoinSplit(s[i + 1..]);
      assert s[i..i + 1] == " ";
      assert s == s[..i] + " " + s[i + 1..];
    }
  }

  /** Every token of `Split(s)` is a contiguous piece of `s`. */
  lemma {:induction false} SplitTokensOccur(s: string, k: int)
    requires 0 <= k < |Split(s)|
    ensures exists p :: OccursAt(Split(s)[k], s, p)
    decreases |s|
  {
    var i := IndexOf(s, " ");
    var tokens := Split(s);
    if i < 0 {
      assert tokens == [s];
      assert tokens[k] == s;
      assert OccursAt(s, s, 0) by { assert s[0..|s|] == s; }
    } else {
      var rest := s[i + 1..];
      assert tokens == [s[..i]] + Split(rest);
      if k == 0 {
        assert tokens[k] == s[..i];
        assert OccursAt(s[..i], s, 0) by { assert s[0..i] == s[..i]; }
      } else {
        SplitTokensOccur(rest, k - 1);
        var t := Split(rest)[k - 1];
        assert tokens[k] == t;
        var p :| OccursAt(t, rest, p);
        assert OccursAt(rest, s, i + 1) by { assert s[i + 1..i + 1 + |rest|] == rest; }
        OccursTrans(t, rest, s, p, i + 1);
      }
    }
  }

  /** How many of `tokens` occur in `item` (the `count` of the token loop). */
  function CountOccurring(tokens: seq<string>, item: string): (count: nat)
    ensures count <= |tokens|
    ensures count == |tokens| <==> forall k :: 0 <= k < |tokens| ==> IndexOf(item, tokens[k]) > -1
  {
    if tokens == [] then 0
    else
      var rest := CountOccurring(tokens[1..], item);
      assert forall k :: 1 <= k < |tokens| ==> tokens[k] == tokens[1..][k - 1];
      (if IndexOf(item, tokens[0]) > -1 then 1 else 0) + rest
  }

  /**
   * The string filter predicate: the lower-cased filter occurs in the
   * lower-cased item as a whole, or each of its space-separated tokens does.
   * The whole-phrase test is only a shortcut: the field matches exactly when
   * every token occurs.
   */
  function StringFieldMatch(filterValue: string, itemValue: string): (b: bool)
    ensures b <==> forall k :: 0 <= k < |Split(Lower(filterValue))| ==>
      IndexOf(Lower(itemValue), Split(Lower(filterValue))[k]) > -1
  {
    var f := Lower(filterValue);
    var item := Lower(itemValue);
    if IndexOf(item, f) > -1 then
      PhraseImpliesTokens(f, item);
      true
    else
      var tokens := Split(f);
      CountOccurring(tokens, item) == |tokens|
  }

  /** When the whole phrase occurs in the item, so does each of its space-separated tokens. */
  lemma PhraseImpliesTokens(phrase: string, item: string)
    requires IndexOf(item, phrase) > -1
    ensures forall k :: 0 <= k < |Split(phrase)| ==> IndexOf(item, Split(phrase)[k]) > -1
  {
    var tokens := Split(phrase);
    var w := IndexOf(item, phrase);
    forall k | 0 <= k < |tokens| ensures IndexOf(item, tokens[k]) > -1 {
      SplitTokensOccur(phrase, k);
      var p :| OccursAt(tokens[k], phrase, p);
      OccursTrans(tokens[k], phrase, item, p, w);
    }
  }

  /** JavaScript's `a < b` on strings: lexicographic, a proper prefix first. */
  predicate LexLess(a: string, b: string) {
    if a == [] then b != []
    else if b == [] then false
    else if a[0] != b[0] then a[0] < b[0]
    else LexLess(a[1..], b[1..])
  }

  lemma {:induction false} LexLessIrreflexive(a: string)
    ensures !LexLess(a, a)
  {
    if a != [] { LexLessIrreflexive(a[1..]); }
  }

  lemma {:induction false} LexLessAsymmetric(a: string, b: string)
    ensures !(LexLess(a, b) && LexLess(b, a))
  {
    if a != [] && b != [] && a[0] == b[0] { LexLessAsymmetric(a[1..], b[1..]); }
  }

  lemma {:induction false} LexLessTransitive(a: string, b: string, c: string)
    requires LexLess(a, b) && LexLess(b, c)
    ensures LexLess(a, c)
  {
    if a != [] && a[0] == b[0] && b[0] == c[0] {
      LexLessTransitive(a[1..], b[1..], c[1..]);
    }
  }

  lemma {:induction false} LexLessTotal(a: string, b: string)
    requires a != b
    ensures LexLess(a, b) || LexLess(b, a)
  {
    if a != [] && b != [] && a[0] == b[0] {
      assert a == [a[0]] + a[1..] && b == [b[0]] + b[1..];
      LexLessTotal(a[1..], b[1..]);
    }
  }

  /** Two strings are equal, or exactly one of them is smaller. */
  lemma LexTrichotomy(a: string, b: string)
    ensures a == b <==> !LexLess(a, b) && !LexLess(b, a)
    ensures !(LexLess(a, b) && LexLess(b, a))
  {
    LexLessAsymmetric(a, b);
    if a == b { LexLessIrreflexive(a); } else { LexLessTotal(a, b); }
  }
}
