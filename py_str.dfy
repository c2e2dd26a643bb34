/**
 * Models of the Python `str` operations that `allowed_file` relies on:
 * finding the last occurrence of a character, `s.rsplit(sep, 1)` and
 * `s.lower()`.
 */
module PyStr {
  import opened Wrappers

  /** Index of the last occurrence of `c` in `s`; `None` where Python's `rfind` gives -1. */
  function LastIndexOf(s: string, c: char): (r: Option<nat>)
    ensures r.None? <==> c !in s
    ensures r.Some? ==> r.value < |s| && s[r.value] == c && c !in s[r.value + 1..]
  {
    if |s| == 0 then None
    else if s[|s| - 1] == c then Some(|s| - 1)
    else
      var r := LastIndexOf(s[..|s| - 1], c);
      assert s == s[..|s| - 1] + [s[|s| - 1]];
      assert r.Some? ==> s[r.value + 1..] == s[..|s| - 1][r.value + 1..] + [s[|s| - 1]];
      r
  }

  /** An occurrence of `c` with no `c` after it is the one `LastIndexOf` finds. */
  lemma LastIndexOfUnique(s: string, c: char, i: nat)
    requires i < |s| && s[i] == c && c !in s[i + 1..]
    ensures LastIndexOf(s, c) == Some(i)
  {
  }

  /**
   * Python's `s.rsplit(sep, 1)`: the one-element list `[s]` when `sep` does
   * not occur, otherwise the text before and the text after the LAST `sep`.
   */
  function RSplitOnce(s: string, sep: char): (parts: seq<string>)
    ensures sep !in s ==> parts == [s]
    ensures sep in s ==> |parts| == 2 && parts[0] + [sep] + parts[1] == s && sep !in parts[1]
  {
    match LastIndexOf(s, sep)
    case None => [s]
    case Some(i) =>
      assert s == s[..i] + [sep] + s[i + 1..];
      [s[..i], s[i + 1..]]
  }

  /**
   * `c.lower()` for the ASCII range: upper-case Latin letters map to their
   * lower-case forms, every other character is left as it is.
   */
  function LowerChar(c: char): (d: char)
    ensures !('A' <= d <= 'Z')
    ensures 'A' <= c <= 'Z' ==> d as int == c as int + 32 && 'a' <= d <= 'z'
    ensures !('A' <= c <= 'Z') ==> d == c
  {
    if 'A' <= c <= 'Z' then (c as int - 'A' as int + 'a' as int) as char else c
  }

  /** `s.lower()`, character by character. */
  function Lower(s: string): (r: string)
    ensures |r| == |s|
    ensures forall i :: 0 <= i < |s| ==> r[i] == LowerChar(s[i])
  {
    if s == [] then [] else [LowerChar(s[0])] + Lower(s[1..])
  }

  /** Lower-casing never creates or removes a '.' (nor any other non-letter). */
  lemma LowerCharKeeps(c: char, d: char)
    requires !('A' <= d <= 'Z') && !('a' <= d <= 'z')
    ensures LowerChar(c) == d <==> c == d
  {
  }

  /** Strings that agree once lower-cased have their '.' characters in the same places. */
  lemma LowerSameDots(s: string, t: string)
    requires Lower(s) == Lower(t)
    ensures |s| == |t|
    ensures forall i :: 0 <= i < |s| ==> (s[i] == '.' <==> t[i] == '.')
  {
    forall i | 0 <= i < |s| ensures s[i] == '.' <==> t[i] == '.' {
      LowerCharKeeps(s[i], '.');
      LowerCharKeeps(t[i], '.');
      assert Lower(s)[i] == Lower(t)[i];
    }
  }

  /** Lower-casing commutes with taking a suffix. */
  lemma LowerSuffix(s: string, i: nat)
    requires i <= |s|
    ensures Lower(s[i..]) == Lower(s)[i..]
  {
  }

  /** Lower-casing twice is lower-casing once. */
  lemma LowerIdempotent(s: string)
    ensures Lower(Lower(s)) == Lower(s)
  {
  }

  /**
   * Two strings with the same positions of `c` have the same last
   * occurrence of `c`.
   */
  lemma LastIndexOfSamePositions(s: string, t: string, c: char)
    requires |s| == |t|
    requires forall i :: 0 <= i < |s| ==> (s[i] == c <==> t[i] == c)
    ensures LastIndexOf(s, c) == LastIndexOf(t, c)
  {
    var r := LastIndexOf(s, c);
    if r.Some? {
      var k := r.value;
      forall j | k + 1 <= j < |t| ensures t[j] != c {
        assert s[k + 1..][j - k - 1] == s[j];
      }
      LastIndexOfUnique(t, c, k);
    } else {
      forall j | 0 <= j < |t| ensures t[j] != c {
        assert s[j] in s;
      }
    }
  }
}
