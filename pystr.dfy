/**
  The few Python string operations the handlers rely on, with Python's
  own semantics: `str.rfind`, `str.rsplit(sep, 1)`, the open slice
  `s[start:]` (negative starts count from the end) and `str.lower`.
 */
module PyStr {

  /** `s.rfind(c)`: the index of the last `c` in `s`, or -1 when there is none. */
  function RFind(s: string, c: char): (i: int)
    ensures -1 <= i < |s|
    ensures i >= 0 ==> s[i] == c
    ensures forall j :: i < j < |s| ==> s[j] != c
  {
    if |s| == 0 then -1
    else if s[|s| - 1] == c then |s| - 1
    else RFind(s[..|s| - 1], c)
  }

  /** The last `c` is the one with no `c` after it. */
  lemma RFindAt(s: string, c: char, i: nat)
    requires i < |s| && s[i] == c
    requires forall j :: i < j < |s| ==> s[j] != c
    ensures RFind(s, c) == i
  {
  }

  /** `s.rsplit(c, 1)`: `[s]` when `c` does not occur, otherwise the text
      before and after the last `c`. */
  function RSplitOnce(s: string, c: char): (parts: seq<string>)
    ensures |parts| == 1 || |parts| == 2
    ensures |parts| == 1 <==> c !in s
    ensures |parts| == 1 ==> parts[0] == s
    ensures |parts| == 2 ==> parts[0] + [c] + parts[1] == s && c !in parts[1]
  {
    var i := RFind(s, c);
    if i < 0 then [s]
    else
      assert s[..i] + [c] + s[i + 1..] == s;
      [s[..i], s[i + 1..]]
  }

  /** Splitting at the last `c`, found at `i`. */
  lemma RSplitOnceAt(s: string, c: char, i: nat)
    requires i < |s| && s[i] == c
    requires forall j :: i < j < |s| ==> s[j] != c
    ensures RSplitOnce(s, c) == [s[..i], s[i + 1..]]
  {
    RFindAt(s, c, i);
  }

  /** `s[start:]`: a suffix of `s`; a negative `start` keeps the last `-start` characters. */
  function SliceFrom(s: string, start: int): (r: string)
    ensures |r| <= |s| && r == s[|s| - |r|..]
    ensures start >= 0 ==> |r| == if start <= |s| then |s| - start else 0
    ensures start < 0 ==> |r| == if -start <= |s| then -start else |s|
  {
    if start >= 0 then (if start <= |s| then s[start..] else [])
    else if -start <= |s| then s[|s| + start..]
    else s
  }

  /** Lower-case one character. Only ASCII letters change. Python's `lower`
      also maps non-ASCII characters: among them the Kelvin sign lowers to 'k'
      and the dotted capital I to 'i' followed by U+0307, which lengthens the
      string. Neither can spell a file extension the service accepts, so
      checking the extension gives the same answer either way. */
  function LowerChar(ch: char): char
  {
    if 'A' <= ch <= 'Z' then (ch as int + 32) as char else ch
  }

  /** `s.lower()` restricted to ASCII: the model keeps the length and
      lower-cases each character. */
  function Lower(s: string): (r: string)
    ensures |r| == |s|
    ensures forall i :: 0 <= i < |s| ==> r[i] == LowerChar(s[i])
  {
    if s == [] then [] else [LowerChar(s[0])] + Lower(s[1..])
  }
}
