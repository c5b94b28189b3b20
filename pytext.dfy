/** The two Python `str` methods the dispatch layer relies on: `rfind` of a
    single character and `lower`. */
module PyText {

  /** `s.rfind(c)`: the index of the last occurrence of `c` in `s`, or -1 when
      `c` does not occur. */
  function RFind(s: string, c: char): (r: int)
    ensures -1 <= r < |s|
    ensures r >= 0 ==> s[r] == c
    ensures forall k :: r < k < |s| ==> s[k] != c
    decreases |s|
  {
    if |s| == 0 then -1
    else if s[|s| - 1] == c then |s| - 1
    else RFind(s[..|s| - 1], c)
  }

  /** `rfind` reports -1 exactly when the character does not occur. */
  lemma RFindAbsent(s: string, c: char)
    ensures RFind(s, c) < 0 <==> c !in s
  {
    if c in s {
      var k :| 0 <= k < |s| && s[k] == c;
      assert RFind(s, c) >= k;
    }
  }

  /** The contract of `RFind` determines its result: any index that is an
      occurrence with no later occurrence, or -1 when there is none, is it. */
  lemma RFindUnique(s: string, c: char, r: int)
    requires -1 <= r < |s|
    requires r >= 0 ==> s[r] == c
    requires forall k :: r < k < |s| ==> s[k] != c
    ensures RFind(s, c) == r
  {
  }

  /** Searching a concatenation finds the last occurrence in its second part,
      or else the last one in its first part. */
  lemma RFindAppend(a: string, b: string, c: char)
    ensures RFind(a + b, c) == if RFind(b, c) >= 0 then |a| + RFind(b, c) else RFind(a, c)
  {
    var s := a + b;
    var rb := RFind(b, c);
    if rb >= 0 {
      forall k | |a| + rb < k < |s| ensures s[k] != c {
        assert s[k] == b[k - |a|];
      }
      RFindUnique(s, c, |a| + rb);
    } else {
      forall k | RFind(a, c) < k < |s| ensures s[k] != c {
        if k >= |a| {
          assert s[k] == b[k - |a|];
        }
      }
      RFindUnique(s, c, RFind(a, c));
    }
  }

  predicate IsAsciiUpper(c: char) {
    'A' <= c <= 'Z'
  }

  /** Lower-casing of one character, over the ASCII letters. */
  function LowerChar(c: char): (r: char)
    ensures !IsAsciiUpper(r)
    ensures IsAsciiUpper(c) ==> r as int == c as int + 32
    ensures !IsAsciiUpper(c) ==> r == c
  {
    if IsAsciiUpper(c) then (c as int + 32) as char else c
  }

  /** `s.lower()`, character by character. */
  function Lower(s: string): (r: string)
    ensures |r| == |s|
    ensures forall i :: 0 <= i < |s| ==> r[i] == LowerChar(s[i])
  {
    if s == [] then [] else [LowerChar(s[0])] + Lower(s[1..])
  }

  /** Lower-casing changes only the letters `A`-`Z`: a character that is not
      an ASCII letter is in the lowered text exactly when it is in the
      original, and no upper-case ASCII letter is left. */
  lemma LowerKeeps(s: string, c: char)
    requires !IsAsciiUpper(c) && !('a' <= c <= 'z')
    ensures c in Lower(s) <==> c in s
    ensures forall i :: 0 <= i < |s| ==> !IsAsciiUpper(Lower(s)[i])
  {
    var r := Lower(s);
    if c in s {
      var k :| 0 <= k < |s| && s[k] == c;
      assert r[k] == c;
    }
    if c in r {
      var k :| 0 <= k < |r| && r[k] == c;
      assert s[k] == c;
    }
  }

  /** Lower-casing twice is lower-casing once. */
  lemma LowerIdempotent(s: string)
    ensures Lower(Lower(s)) == Lower(s)
  {
    var r := Lower(s);
    assert forall i :: 0 <= i < |r| ==> Lower(r)[i] == r[i];
  }
}
