/**
 * String helpers the formatter relies on: Python's `str.replace("\n", "<br>")`
 * and literal substring occurrence.
 */
module Text {

  /** The markup that stands for a line break in the rendered message. */
  const LineBreak: string := "<br>"

  /** Number of occurrences of `c` in `s`. */
  function CountChar(s: string, c: char): (n: nat)
    ensures n <= |s|
    ensures n == 0 <==> c !in s
  {
    if |s| == 0 then 0 else (if s[0] == c then 1 else 0) + CountChar(s[1..], c)
  }

  /**
   * `s.replace("\n", "<br>")`: every newline becomes the line-break markup and
   * every other character is kept, in order.
   */
  function ReplaceNewlines(s: string): (r: string)
    ensures '\n' !in r
    ensures '\n' !in s ==> r == s
    ensures |r| == |s| + 3 * CountChar(s, '\n')
  {
    if |s| == 0 then ""
    else (if s[0] == '\n' then LineBreak else [s[0]]) + ReplaceNewlines(s[1..])
  }

  /** Replacing newlines in a concatenation is replacing them in each part. */
  lemma {:induction false} ReplaceNewlinesAppend(a: string, b: string)
    ensures ReplaceNewlines(a + b) == ReplaceNewlines(a) + ReplaceNewlines(b)
    decreases |a|
  {
    if |a| > 0 {
      var head := if a[0] == '\n' then LineBreak else [a[0]];
      assert (a + b)[0] == a[0];
      assert (a + b)[1..] == a[1..] + b;
      ReplaceNewlinesAppend(a[1..], b);
      assert ReplaceNewlines(a + b) == head + ReplaceNewlines(a[1..] + b);
      assert ReplaceNewlines(a) == head + ReplaceNewlines(a[1..]);
    } else {
      assert a + b == b;
    }
  }

  /** Each newline becomes exactly the line-break markup, with both sides replaced independently. */
  lemma ReplaceNewlinesAt(a: string, b: string)
    ensures ReplaceNewlines(a + "\n" + b) == ReplaceNewlines(a) + LineBreak + ReplaceNewlines(b)
  {
    ReplaceNewlinesAppend(a + "\n", b);
    ReplaceNewlinesAppend(a, "\n");
    assert ReplaceNewlines("\n") == LineBreak + ReplaceNewlines("");
  }

  /** `sub` starts at index `k` of `s`. */
  predicate OccursAt(sub: string, s: string, k: nat) {
    k + |sub| <= |s| && s[k..k + |sub|] == sub
  }

  /** `sub in s` for Python strings: `sub` appears as a contiguous slice of `s`. */
  ghost predicate Occurs(sub: string, s: string) {
    exists k: nat | k <= |s| :: OccursAt(sub, s, k)
  }

  lemma OccursSelf(s: string)
    ensures Occurs(s, s)
  {
    assert OccursAt(s, s, 0);
  }

  /** An occurrence survives text being added on either side. */
  lemma OccursExtend(sub: string, a: string, s: string, b: string)
    requires Occurs(sub, s)
    ensures Occurs(sub, a + s + b)
  {
    var k: nat :| k <= |s| && OccursAt(sub, s, k);
    assert k + |sub| <= |s| && s[k..k + |sub|] == sub;
    var t := a + s + b;
    assert t[|a| + k..|a| + k + |sub|] == s[k..k + |sub|];
    assert OccursAt(sub, t, |a| + k);
  }
}
