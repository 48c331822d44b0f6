/**
  The few string operations the scripts rely on, written over `seq<char>`:
  `str.rfind`, `str.split(c)[-1]`, `str.rsplit(c, 1)[0]`, `str.split(c, 1)`,
  the substring test `sub in s`, `str.lower` on ASCII letters, `str.lstrip(c)`
  and `s * n`.
 */
module Text {
  import opened Wrappers

  /** Index of the last `c` in `s`, or -1 when `s` has none (`s.rfind(c)`). */
  function LastIndexOf(s: string, c: char): (i: int)
    ensures -1 <= i < |s|
    ensures 0 <= i ==> s[i] == c
    ensures forall k :: i < k < |s| ==> s[k] != c
  {
    if s == [] then -1
    else if s[|s| - 1] == c then |s| - 1
    else LastIndexOf(s[..|s| - 1], c)
  }

  /** Index of the first `c` in `s`, or -1 when `s` has none (`s.find(c)`). */
  function IndexOf(s: string, c: char): (i: int)
    ensures -1 <= i < |s|
    ensures 0 <= i ==> s[i] == c
    ensures forall k :: 0 <= k < |s| && (i < 0 || k < i) ==> s[k] != c
  {
    if s == [] then -1
    else if s[0] == c then 0
    else
      var j := IndexOf(s[1..], c);
      if j < 0 then -1 else j + 1
  }

  /** The text after the last `c`, or all of `s` when it has none: `s.split(c)[-1]`. */
  function AfterLast(s: string, c: char): (r: string)
    ensures c !in r
    ensures |r| <= |s| && r == s[|s| - |r|..]
    ensures c in s ==> |r| < |s| && s[|s| - |r| - 1] == c
    ensures c !in s ==> r == s
  {
    s[LastIndexOf(s, c) + 1..]
  }

  /** The text before the last `c`, or all of `s` when it has none: `s.rsplit(c, 1)[0]`. */
  function BeforeLast(s: string, c: char): (r: string)
    ensures c in s ==> r + [c] + AfterLast(s, c) == s
    ensures c !in s ==> r == s
  {
    var i := LastIndexOf(s, c);
    if i < 0 then s
    else
      assert s == s[..i] + [c] + s[i + 1..];
      s[..i]
  }

  /**
    `s.split(c, 1)` unpacked into two names: the text before the first `c` and
    the text after it. With no `c` in `s` the split yields one part and the
    unpacking raises; that case is `None`.
   */
  function SplitOnce(s: string, c: char): (r: Option<(string, string)>)
    ensures r.None? <==> c !in s
    ensures r.Some? ==> r.value.0 + [c] + r.value.1 == s && c !in r.value.0
  {
    var i := IndexOf(s, c);
    if i < 0 then None
    else
      assert s == s[..i] + [c] + s[i + 1..];
      Some((s[..i], s[i + 1..]))
  }

  /** Joining the two parts back with `c` inverts `SplitOnce`, and splitting a join recovers the parts. */
  lemma SplitOnceJoin(head: string, tail: string, c: char)
    requires c !in head
    ensures SplitOnce(head + [c] + tail, c) == Some((head, tail))
  {
    var s := head + [c] + tail;
    assert s[|head|] == c;
    assert s[..|head|] == head && s[|head| + 1..] == tail;
  }

  /** Splitting at the last `c` recovers the two parts of a join whose right part has no `c`. */
  lemma SplitLastJoin(head: string, tail: string, c: char)
    requires c !in tail
    ensures BeforeLast(head + [c] + tail, c) == head
    ensures AfterLast(head + [c] + tail, c) == tail
  {
    var s := head + [c] + tail;
    assert s[|head|] == c;
    assert forall k :: |head| < k < |s| ==> s[k] == tail[k - |head| - 1];
    var i := LastIndexOf(s, c);
    assert i == |head|;
    assert s[..i] == head && s[i + 1..] == tail;
  }

  /** `sub` occurs in `s` starting at index `i`. */
  predicate OccursAt(sub: string, s: string, i: int) {
    0 <= i && i + |sub| <= |s| && s[i..i + |sub|] == sub
  }

  /** Python's substring test `sub in s`. */
  predicate IsSubstring(sub: string, s: string) {
    exists i | 0 <= i <= |s| :: OccursAt(sub, s, i)
  }

  /** `c.lower()` restricted to the ASCII letters. */
  function LowerChar(c: char): char {
    if 'A' <= c <= 'Z' then (c as int - 'A' as int + 'a' as int) as char else c
  }

  /** `s.lower()` on ASCII text: every upper-case letter is mapped to its lower-case form. */
  function ToLower(s: string): (r: string)
    ensures |r| == |s|
    ensures forall i :: 0 <= i < |s| ==> r[i] == LowerChar(s[i])
  {
    if s == [] then [] else [LowerChar(s[0])] + ToLower(s[1..])
  }

  /** Lower-casing works character by character, so it distributes over concatenation. */
  lemma ToLowerAppend(a: string, b: string)
    ensures ToLower(a + b) == ToLower(a) + ToLower(b)
  {
    var l, r := ToLower(a + b), ToLower(a) + ToLower(b);
    assert |l| == |r|;
    forall i | 0 <= i < |l| ensures l[i] == r[i] {
      if i < |a| {
        assert (a + b)[i] == a[i];
      } else {
        assert (a + b)[i] == b[i - |a|];
      }
    }
  }

  /** `s.lstrip(c)`: the suffix of `s` left after removing every leading `c`. */
  function StripLeading(s: string, c: char): (r: string)
    ensures |r| <= |s| && r == s[|s| - |r|..]
    ensures r == [] || r[0] != c
    ensures forall k :: 0 <= k < |s| - |r| ==> s[k] == c
  {
    if s != [] && s[0] == c then StripLeading(s[1..], c) else s
  }

  /** `s * n`: `n` copies of `s` side by side. */
  function Repeat(s: string, n: nat): (r: string)
    ensures |r| == n * |s|
    ensures forall k :: 0 <= k < |r| ==> r[k] in s
  {
    if n == 0 then [] else s + Repeat(s, n - 1)
  }
}
