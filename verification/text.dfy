/**
 The handful of Python `str` operations the toolkit relies on, written out over
 `seq<char>`: `isspace`/`strip`, `lstrip` of one character, `lower` (ASCII),
 substring membership (`needle in haystack`) and `replace(pattern, "")`.
 */
module Text {

  /** Python's `str.isspace` for one character: the characters `str.strip()`
      removes when called without arguments. U+FEFF and NUL are not among them. */
  predicate IsSpace(c: char) {
    || ('\U{9}' <= c <= '\U{D}')
    || ('\U{1C}' <= c <= '\U{20}')
    || c == '\U{85}' || c == '\U{A0}' || c == '\U{1680}'
    || ('\U{2000}' <= c <= '\U{200A}')
    || c == '\U{2028}' || c == '\U{2029}' || c == '\U{202F}' || c == '\U{205F}'
    || c == '\U{3000}'
  }

  /** A string that `strip()` leaves alone: it neither starts nor ends with whitespace. */
  predicate NoSurroundingSpace(s: string) {
    s == [] || (!IsSpace(s[0]) && !IsSpace(s[|s| - 1]))
  }

  /** Every character of `s` is whitespace (Python: `not s.strip()`). */
  predicate AllSpace(s: string) {
    forall i :: 0 <= i < |s| ==> IsSpace(s[i])
  }

  /** The length of the leading whitespace run of `s`. */
  function LeadingSpace(s: string): (n: nat)
    ensures n <= |s| && AllSpace(s[..n])
    ensures n == |s| || !IsSpace(s[n])
  {
    if s != [] && IsSpace(s[0]) then
      var n := LeadingSpace(s[1..]);
      n + 1
    else
      0
  }

  /** The length of the trailing whitespace run of `s`. */
  function TrailingSpace(s: string): (n: nat)
    ensures n <= |s| && AllSpace(s[|s| - n..])
    ensures n == |s| || !IsSpace(s[|s| - n - 1])
  {
    if s != [] && IsSpace(s[|s| - 1]) then
      var n := TrailingSpace(s[..|s| - 1]);
      n + 1
    else
      0
  }

  /** Python's `s.strip()`: removes whitespace at both ends. */
  function Strip(s: string): (r: string)
    ensures NoSurroundingSpace(r)
    ensures |r| <= |s|
    ensures r == [] <==> AllSpace(s)
    ensures NoSurroundingSpace(s) ==> r == s
  {
    var i := LeadingSpace(s);
    var m := TrailingSpace(s[i..]);
    var j := |s| - m;
    assert s[i..][|s[i..]| - m..] == s[j..];
    assert NoSurroundingSpace(s[i..j]) by {
      if i < j {
        assert s[i..j][0] == s[i];
        assert s[i..j][j - i - 1] == s[i..][|s[i..]| - m - 1];
      }
    }
    assert s[i..j] == [] ==> AllSpace(s) by {
      if s[i..j] == [] {
        assert s[..i] == s;
      }
    }
    s[i..j]
  }

  /** `r` is the slice of `s` at offset `i`, and everything around it is whitespace. */
  predicate SpaceAround(s: string, i: int, r: string) {
    0 <= i <= |s| - |r| && r == s[i..i + |r|] && AllSpace(s[..i]) && AllSpace(s[i + |r|..])
  }

  /** What `Strip` removes is whitespace and what it keeps is one contiguous slice:
      `strip()` never touches a character between two non-space characters. */
  lemma StripIsSlice(s: string)
    ensures exists i :: SpaceAround(s, i, Strip(s))
  {
    var i := LeadingSpace(s);
    var m := TrailingSpace(s[i..]);
    SliceBetweenSpace(s, i, m);
    assert Strip(s) == s[i..|s| - m];
  }

  /** Whitespace before offset `i` and in the last `m` characters after it
      surrounds the slice between them. */
  lemma SliceBetweenSpace(s: string, i: nat, m: nat)
    requires i <= |s| && m <= |s| - i
    requires AllSpace(s[..i]) && AllSpace(s[i..][|s| - i - m..])
    ensures SpaceAround(s, i, s[i..|s| - m])
  {
    assert s[i..][|s| - i - m..] == s[|s| - m..];
  }

  /** `Strip` only removes characters: every character of the result occurs in the input. */
  lemma StripChars(s: string)
    ensures forall c :: c in Strip(s) ==> c in s
  {
    var r := Strip(s);
    StripIsSlice(s);
    var i :| SpaceAround(s, i, r);
    forall c | c in r ensures c in s {
      var k :| 0 <= k < |r| && r[k] == c;
      assert s[i + k] == c;
    }
  }

  /** Python's `s.lstrip(c)`: drops the leading run of the character `c`. */
  function LStripChar(s: string, c: char): (r: string)
    ensures |r| <= |s| && r == s[|s| - |r|..]
    ensures r == [] || r[0] != c
    ensures forall k :: 0 <= k < |s| - |r| ==> s[k] == c
    ensures forall d :: d in r ==> d in s
  {
    if s != [] && s[0] == c then
      var r := LStripChar(s[1..], c);
      assert forall k :: 0 < k < |s| - |r| ==> s[1..][k - 1] == s[k];
      r
    else
      s
  }

  /** Python's `s.replace(c, "")` for one character: every occurrence of `c` deleted. */
  function DeleteChar(s: string, c: char): (r: string)
    ensures |r| <= |s|
    ensures forall d :: d in r <==> d in s && d != c
    ensures c !in s ==> r == s
  {
    if s == [] then []
    else
      assert s == [s[0]] + s[1..];
      (if s[0] == c then [] else [s[0]]) + DeleteChar(s[1..], c)
  }

  /** Deleting a character from a one-character string drops it exactly when it is `c`. */
  lemma DeleteCharOne(x: char, c: char)
    ensures DeleteChar([x], c) == if x == c then [] else [x]
  {
    assert [x][1..] == [];
  }

  /** The first character of `a` is dealt with before the rest of `a + b`. */
  lemma DeleteCharHead(a: string, b: string, c: char)
    requires a != []
    ensures DeleteChar(a + b, c) == (if a[0] == c then [] else [a[0]]) + DeleteChar(a[1..] + b, c)
    ensures DeleteChar(a, c) == (if a[0] == c then [] else [a[0]]) + DeleteChar(a[1..], c)
  {
    assert (a + b)[1..] == a[1..] + b;
  }

  /** Concatenation is associative. */
  lemma AppendAssoc<T>(x: seq<T>, y: seq<T>, z: seq<T>)
    ensures x + (y + z) == (x + y) + z
  {
  }

  /** Deleting a character works piece by piece: a concatenation is processed part
      by part, so together with `DeleteCharOne` every other character is kept, in
      its original order. */
  lemma {:induction false} DeleteCharAppend(a: string, b: string, c: char)
    ensures DeleteChar(a + b, c) == DeleteChar(a, c) + DeleteChar(b, c)
    decreases |a|
  {
    if a == [] {
      assert a + b == b;
    } else {
      DeleteCharAppend(a[1..], b, c);
      DeleteCharHead(a, b, c);
      AppendAssoc(if a[0] == c then [] else [a[0]], DeleteChar(a[1..], c), DeleteChar(b, c));
    }
  }

  /** `needle` occurs in `haystack` starting at index `i`. */
  predicate OccursAt(haystack: string, needle: string, i: int) {
    0 <= i && i + |needle| <= |haystack| && haystack[i..i + |needle|] == needle
  }

  /** Python's `needle in haystack`, scanning from the left. */
  function Contains(haystack: string, needle: string): (r: bool)
    ensures r <==> exists i :: OccursAt(haystack, needle, i)
    decreases |haystack|
  {
    if |needle| > |haystack| then
      false
    else if needle <= haystack then
      assert OccursAt(haystack, needle, 0);
      true
    else
      var r := Contains(haystack[1..], needle);
      assert forall i :: OccursAt(haystack[1..], needle, i) <==> OccursAt(haystack, needle, i + 1) by {
        forall i ensures OccursAt(haystack[1..], needle, i) <==> OccursAt(haystack, needle, i + 1) {
          if 0 <= i && i + |needle| <= |haystack[1..]| {
            assert haystack[1..][i..i + |needle|] == haystack[i + 1..i + 1 + |needle|];
          }
        }
      }
      assert !OccursAt(haystack, needle, 0);
      assert forall i :: OccursAt(haystack, needle, i) ==> i == 0 || OccursAt(haystack[1..], needle, i - 1);
      r
  }

  /** A haystack that contains a string also contains every prefix of it. */
  lemma ContainsPrefix(haystack: string, needle: string, prefix: string)
    requires prefix <= needle
    requires Contains(haystack, needle)
    ensures Contains(haystack, prefix)
  {
    var i :| OccursAt(haystack, needle, i);
    assert haystack[i..i + |prefix|] == needle[..|prefix|];
    assert OccursAt(haystack, prefix, i);
  }

  /** Python's `s.replace(pattern, "")`: scanning left to right, each occurrence of
      `pattern` that does not overlap an earlier deleted one is deleted; the scan
      resumes after the deleted text and never looks at the joined result again. */
  function DeleteAll(s: string, pattern: string): (r: string)
    requires pattern != []
    ensures |r| <= |s|
    ensures forall c :: c in r ==> c in s
    ensures !Contains(s, pattern) ==> r == s
    decreases |s|
  {
    if s == [] then
      []
    else if pattern <= s then
      assert s == pattern + s[|pattern|..];
      DeleteAll(s[|pattern|..], pattern)
    else
      assert s == [s[0]] + s[1..];
      assert !Contains(s, pattern) ==> !Contains(s[1..], pattern) by {
        if Contains(s[1..], pattern) {
          var i :| OccursAt(s[1..], pattern, i);
          assert s[1..][i..i + |pattern|] == s[i + 1..i + 1 + |pattern|];
          assert OccursAt(s, pattern, i + 1);
        }
      }
      [s[0]] + DeleteAll(s[1..], pattern)
  }

  /** A copy of `pattern` starting inside `a`, in `a + pattern + b`, already
      occurs in `a + pattern[..n-1]`. */
  lemma StartInside(a: string, pattern: string, b: string, i: nat)
    requires i < |a| && pattern != []
    ensures pattern <= (a + pattern + b)[i..] ==> OccursAt(a + pattern[..|pattern| - 1], pattern, i)
  {
    var n := |pattern|;
    var s := a + pattern + b;
    var q := a + pattern[..n - 1];
    forall k | i <= k < i + n ensures q[k] == s[k] {
      if k >= |a| {
        assert q[k] == pattern[k - |a|] == s[k];
      }
    }
    assert q[i..i + n] == s[i..][..n];
  }

  /** Where `pattern` does not start `t`, `DeleteAll` keeps the first character. */
  lemma DeleteAllSkipsOne(t: string, pattern: string)
    requires pattern != [] && t != [] && !(pattern <= t)
    ensures DeleteAll(t, pattern) == [t[0]] + DeleteAll(t[1..], pattern)
  {
  }

  /** Slicing facts for moving the boundary of a prefix one place to the right. */
  lemma SliceStep(s: string, k: nat)
    requires 0 < k <= |s|
    ensures s[k - 1..][0] == s[k - 1] && s[k - 1..][1..] == s[k..]
    ensures s[..k] == s[..k - 1] + [s[k - 1]]
  {
  }

  /** Moving the kept prefix one character to the right, past a position where
      `pattern` does not start. */
  lemma KeepsPrefixStep(s: string, pattern: string, k: nat)
    requires pattern != [] && 0 < k <= |s| && !(pattern <= s[k - 1..])
    requires DeleteAll(s, pattern) == s[..k - 1] + DeleteAll(s[k - 1..], pattern)
    ensures DeleteAll(s, pattern) == s[..k] + DeleteAll(s[k..], pattern)
  {
    var d := DeleteAll(s[k..], pattern);
    SliceStep(s, k);
    DeleteAllSkipsOne(s[k - 1..], pattern);
    assert DeleteAll(s[k - 1..], pattern) == [s[k - 1]] + d;
    AppendAssoc(s[..k - 1], [s[k - 1]], d);
  }

  /** Under the hypothesis of `DeleteAllLeftmost`, `pattern` starts nowhere inside `a`. */
  lemma NoStartInside(a: string, pattern: string, b: string)
    requires pattern != []
    requires !Contains(a + pattern[..|pattern| - 1], pattern)
    ensures forall i :: 0 <= i < |a| ==> !(pattern <= (a + pattern + b)[i..])
  {
    forall i | 0 <= i < |a| ensures !(pattern <= (a + pattern + b)[i..]) {
      StartInside(a, pattern, b, i);
    }
  }

  /** The two halves of `x + y`, cut where `x` ends. */
  lemma SplitAt(x: string, y: string)
    ensures (x + y)[..|x|] == x && (x + y)[|x|..] == y
  {
  }

  /** When `pattern` starts at none of the first `k` positions of `s`, `DeleteAll`
      keeps those `k` characters and carries on from position `k`. */
  lemma {:induction false} DeleteAllKeepsPrefix(s: string, pattern: string, k: nat)
    requires pattern != [] && k <= |s|
    requires forall i :: 0 <= i < k ==> !(pattern <= s[i..])
    ensures DeleteAll(s, pattern) == s[..k] + DeleteAll(s[k..], pattern)
    decreases k
  {
    if k == 0 {
      assert s[..0] + s[0..] == s[0..] == s;
    } else {
      DeleteAllKeepsPrefix(s, pattern, k - 1);
      KeepsPrefixStep(s, pattern, k);
    }
  }

  /** An occurrence at the very front is deleted and the scan resumes behind it. */
  lemma DeleteAllAtFront(pattern: string, b: string)
    requires pattern != []
    ensures DeleteAll(pattern + b, pattern) == DeleteAll(b, pattern)
  {
    assert (pattern + b)[|pattern|..] == b;
  }

  /** The leftmost occurrence is deleted and everything before it is kept: when
      `pattern` does not occur before its copy placed after `a`, `DeleteAll` keeps
      `a`, removes that copy and carries on with `b`. */
  lemma DeleteAllLeftmost(a: string, pattern: string, b: string)
    requires pattern != []
    requires !Contains(a + pattern[..|pattern| - 1], pattern)
    ensures DeleteAll(a + pattern + b, pattern) == a + DeleteAll(b, pattern)
  {
    var s := a + pattern + b;
    NoStartInside(a, pattern, b);
    DeleteAllKeepsPrefix(s, pattern, |a|);
    AppendAssoc(a, pattern, b);
    SplitAt(a, pattern + b);
    DeleteAllAtFront(pattern, b);
  }

  /** Python's `str.lower` restricted to ASCII letters: a capital becomes its own
      lower-case letter, 32 code points on. */
  function LowerChar(c: char): (d: char)
    ensures 'A' <= c <= 'Z' ==> 'a' <= d <= 'z' && d as int == c as int + 32
    ensures !('A' <= c <= 'Z') ==> d == c
    ensures !('A' <= d <= 'Z')
  {
    if 'A' <= c <= 'Z' then (c as int - 'A' as int + 'a' as int) as char else c
  }

  /** Python's `s.lower()` (ASCII): the result has no capital left. */
  function Lower(s: string): (r: string)
    ensures |r| == |s|
    ensures forall i :: 0 <= i < |s| ==> r[i] == LowerChar(s[i])
    ensures forall i :: 0 <= i < |r| ==> !('A' <= r[i] <= 'Z')
  {
    seq(|s|, i requires 0 <= i < |s| => LowerChar(s[i]))
  }

  /** Lowering twice is lowering once, and lowering works piece by piece. */
  lemma LowerIdempotent(a: string, b: string)
    ensures Lower(Lower(a)) == Lower(a)
    ensures Lower(a + b) == Lower(a) + Lower(b)
  {
    var l := Lower(a);
    assert forall i :: 0 <= i < |l| ==> LowerChar(l[i]) == l[i];
    var ab := a + b;
    assert forall i :: 0 <= i < |ab| ==> Lower(ab)[i] == (Lower(a) + Lower(b))[i];
  }

}
