/** The few Java string operations the listener relies on: `String.contains`,
    `String.split` with a one-character separator, and replacing one character
    by another throughout a string. */
module Text {

  /** `needle` occurs in `hay` starting at index `i`. */
  predicate OccursAt(hay: string, needle: string, i: int) {
    0 <= i && i + |needle| <= |hay| && hay[i..i + |needle|] == needle
  }

  /** Java's `hay.contains(needle)`. */
  predicate Contains(hay: string, needle: string) {
    exists i | 0 <= i <= |hay| - |needle| :: OccursAt(hay, needle, i)
  }

  /** Every string begins with itself, so it contains every prefix of itself. */
  lemma ContainsPrefix(prefix: string, rest: string)
    ensures Contains(prefix + rest, prefix)
  {
    assert OccursAt(prefix + rest, prefix, 0);
  }

  /** Index of the first `c` in `s`. */
  function FirstIndex(s: string, c: char): (i: nat)
    requires c in s
    ensures i < |s| && s[i] == c && c !in s[..i]
  {
    if s[0] == c then 0
    else
      var j := FirstIndex(s[1..], c);
      assert s[..j + 1] == [s[0]] + s[1..][..j];
      j + 1
  }

  /** The runs of `s` between occurrences of `sep`, empty runs included:
      splitting `"a::b"` on `':'` gives `["a", "", "b"]`. */
  function Fields(s: string, sep: char): (r: seq<string>)
    ensures |r| >= 1
    ensures forall k | 0 <= k < |r| :: sep !in r[k]
    decreases |s|
  {
    if sep !in s then [s]
    else
      var i := FirstIndex(s, sep);
      [s[..i]] + Fields(s[i + 1..], sep)
  }

  /** Glues `parts` back together with `sep` between neighbours. */
  function Join(parts: seq<string>, sep: char): string
    requires |parts| >= 1
  {
    if |parts| == 1 then parts[0] else parts[0] + [sep] + Join(parts[1..], sep)
  }

  /** Splitting on `sep` loses nothing: joining the fields gives back the string. */
  lemma {:induction false} JoinFields(s: string, sep: char)
    ensures Join(Fields(s, sep), sep) == s
    decreases |s|
  {
    if sep in s {
      var i := FirstIndex(s, sep);
      JoinFields(s[i + 1..], sep);
      assert Fields(s, sep)[1..] == Fields(s[i + 1..], sep);
      assert s == s[..i] + [sep] + s[i + 1..];
    }
  }

  /** Removes the empty strings at the end of `xs`. */
  function DropTrailingEmpty(xs: seq<string>): (r: seq<string>)
    ensures |r| <= |xs| && r == xs[..|r|]
    ensures |r| == 0 || r[|r| - 1] != ""
    ensures forall k | |r| <= k < |xs| :: xs[k] == ""
  {
    if |xs| > 0 && xs[|xs| - 1] == "" then DropTrailingEmpty(xs[..|xs| - 1]) else xs
  }

  /** Java's `s.split(regex)` for a regex that matches the one character `sep`
      and the default limit 0: when `sep` does not occur the result is `[s]`,
      otherwise the fields with trailing empty strings removed. */
  function JavaSplit(s: string, sep: char): (r: seq<string>)
    ensures sep !in s ==> r == [s]
    ensures sep in s ==> |r| <= |Fields(s, sep)| && r == Fields(s, sep)[..|r|]
    ensures sep in s ==> |r| == 0 || r[|r| - 1] != ""
    ensures sep in s ==> forall k | |r| <= k < |Fields(s, sep)| :: Fields(s, sep)[k] == ""
  {
    if sep !in s then [s] else DropTrailingEmpty(Fields(s, sep))
  }

  /** Some field of `s` contains `needle`. */
  predicate SomeFieldContains(parts: seq<string>, needle: string) {
    exists k | 0 <= k < |parts| :: Contains(parts[k], needle)
  }

  /** An occurrence inside the slice `s[a..b]` is an occurrence in `s`. */
  lemma OccursInSlice(s: string, a: nat, b: nat, needle: string, j: int)
    requires a <= b <= |s| && OccursAt(s[a..b], needle, j)
    ensures OccursAt(s, needle, a + j)
  {
    forall m | 0 <= m < |needle|
      ensures s[a + j..a + j + |needle|][m] == needle[m]
    {
      assert s[a..b][j..j + |needle|][m] == needle[m];
    }
  }

  /** An occurrence of `needle` within the bounds of `s[a..b]` is an
      occurrence in that slice. */
  lemma OccursWithinSlice(s: string, a: nat, b: nat, needle: string, j: int)
    requires a <= j && j + |needle| <= b <= |s| && OccursAt(s, needle, j)
    ensures OccursAt(s[a..b], needle, j - a)
  {
    forall m | 0 <= m < |needle|
      ensures s[a..b][j - a..j - a + |needle|][m] == needle[m]
    {
      assert s[j..j + |needle|][m] == needle[m];
    }
  }

  /** The fields after the first are the fields of what follows the first separator. */
  lemma FieldsTail(s: string, sep: char)
    requires sep in s
    ensures Fields(s, sep) == [s[..FirstIndex(s, sep)]] + Fields(s[FirstIndex(s, sep) + 1..], sep)
  {
  }

  /** Whatever a slice of `s` contains, `s` contains too. */
  lemma ContainsInSlice(s: string, a: nat, b: nat, needle: string)
    requires a <= b <= |s| && Contains(s[a..b], needle)
    ensures Contains(s, needle)
  {
    var j :| 0 <= j <= b - a - |needle| && OccursAt(s[a..b], needle, j);
    OccursInSlice(s, a, b, needle, j);
  }

  /** An occurrence inside one field is an occurrence inside the whole string. */
  lemma {:induction false} FieldOccurrenceInWhole(s: string, sep: char, k: nat, needle: string)
    requires k < |Fields(s, sep)|
    requires Contains(Fields(s, sep)[k], needle)
    ensures Contains(s, needle)
    decreases |s|
  {
    if sep in s {
      var i := FirstIndex(s, sep);
      FieldsTail(s, sep);
      if k == 0 {
        assert s[..i] == s[0..i];
        ContainsInSlice(s, 0, i, needle);
      } else {
        var t := s[i + 1..];
        assert Fields(s, sep)[k] == Fields(t, sep)[k - 1];
        FieldOccurrenceInWhole(t, sep, k - 1, needle);
        assert t == s[i + 1..|s|];
        ContainsInSlice(s, i + 1, |s|, needle);
      }
    }
  }

  /** An occurrence of a separator-free needle lies inside a single field. */
  lemma {:induction false} WholeOccurrenceInField(s: string, sep: char, needle: string) returns (k: nat)
    requires sep !in needle
    requires Contains(s, needle)
    ensures k < |Fields(s, sep)| && Contains(Fields(s, sep)[k], needle)
    decreases |s|
  {
    var j :| 0 <= j <= |s| - |needle| && OccursAt(s, needle, j);
    if sep !in s {
      k := 0;
    } else {
      var i := FirstIndex(s, sep);
      FieldsTail(s, sep);
      if j + |needle| <= i {
        assert OccursAt(s[..i], needle, j) by {
          OccursWithinSlice(s, 0, i, needle, j);
          assert s[..i] == s[0..i];
        }
        k := 0;
      } else {
        assert i < j;  // s[i] is the separator, which the needle lacks
        var t := s[i + 1..];
        assert OccursAt(t, needle, j - i - 1) by {
          OccursWithinSlice(s, i + 1, |s|, needle, j);
          assert t == s[i + 1..|s|];
        }
        var k' := WholeOccurrenceInField(t, sep, needle);
        k := k' + 1;
      }
    }
  }

  /** For a non-empty needle free of the separator, some piece of `JavaSplit`
      contains it exactly when the whole string does. */
  lemma SplitContainsIff(s: string, sep: char, needle: string)
    requires needle != [] && sep !in needle
    ensures SomeFieldContains(JavaSplit(s, sep), needle) <==> Contains(s, needle)
  {
    var fields := Fields(s, sep);
    var parts := JavaSplit(s, sep);
    if sep in s {
      assert parts == DropTrailingEmpty(fields);
      if SomeFieldContains(parts, needle) {
        var k :| 0 <= k < |parts| && Contains(parts[k], needle);
        assert parts[k] == fields[k];
        FieldOccurrenceInWhole(s, sep, k, needle);
      }
      if Contains(s, needle) {
        var k := WholeOccurrenceInField(s, sep, needle);
        if k >= |parts| {
          assert false;
        }
        assert parts[k] == fields[k];
      }
    } else {
      assert parts == [s];
      if Contains(s, needle) {
        assert Contains(parts[0], needle);
      }
    }
  }

  /** `s` with every `from` replaced by `to`: JavaScript's
      `s.replace(/x/g, y)` for a single-character `x`. */
  function ReplaceAll(s: string, from: char, to: char): (r: string)
    ensures |r| == |s|
    ensures forall i | 0 <= i < |s| :: r[i] == (if s[i] == from then to else s[i])
  {
    if s == [] then []
    else [if s[0] == from then to else s[0]] + ReplaceAll(s[1..], from, to)
  }
}
