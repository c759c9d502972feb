/**
  The Python 2 string and path operations that check_bitrot.py relies on, with
  their Python meaning written out: negative-index slicing, `str.strip()`
  and POSIX `os.path.join`, with `EndsWith`, the suffix test the model uses
  to state what they compute.
 */
module PyStrings {

  /** `t` is a suffix of `s`: the last |t| characters of `s` are `t`. */
  predicate EndsWith(s: string, t: string) {
    |t| <= |s| && s[|s| - |t|..] == t
  }

  /** `s[i:]` for any integer `i`: a negative `i` counts from the end, and the
      start is clamped to the string, so a slice never raises. */
  function SliceFrom(s: string, i: int): (r: string)
    ensures i < 0 ==> |r| == if -i <= |s| then -i else |s|
    ensures 0 <= i ==> |r| == if i <= |s| then |s| - i else 0
  {
    var start := if i < 0 then (if |s| + i < 0 then 0 else |s| + i)
                 else (if i > |s| then |s| else i);
    s[start..]
  }

  /** The slice `s[i:]` is the suffix of `s` of that length; in particular
      `s[-k:]` is the whole of a string shorter than `k`. */
  lemma SliceFromIsSuffix(s: string, i: int)
    ensures SliceFrom(s, i) == s[|s| - |SliceFrom(s, i)|..]
    ensures i < 0 && |s| <= -i ==> SliceFrom(s, i) == s
  {
  }

  /** The characters `str.isspace()` accepts for a Python 2 byte string:
      space, tab, newline, vertical tab, form feed and carriage return. */
  predicate IsSpace(c: char) {
    c == ' ' || c == '\t' || c == '\n' || c == '\U{B}' || c == '\U{C}' || c == '\r'
  }

  predicate AllSpace(s: string) {
    forall i :: 0 <= i < |s| ==> IsSpace(s[i])
  }

  /** A string that `strip()` leaves alone: it neither starts nor ends with white space. */
  predicate IsStripped(s: string) {
    s == [] || (!IsSpace(s[0]) && !IsSpace(s[|s| - 1]))
  }

  /** `s.lstrip()` */
  function TrimLeft(s: string): (r: string)
    ensures |r| <= |s|
    ensures r == [] || !IsSpace(r[0])
    decreases |s|
  {
    if |s| > 0 && IsSpace(s[0]) then TrimLeft(s[1..]) else s
  }

  /** `lstrip()` removes a prefix made only of white space. */
  lemma {:induction false} TrimLeftRemovesSpace(s: string)
    ensures TrimLeft(s) == s[|s| - |TrimLeft(s)|..]
    ensures AllSpace(s[..|s| - |TrimLeft(s)|])
    decreases |s|
  {
    if |s| > 0 && IsSpace(s[0]) {
      TrimLeftRemovesSpace(s[1..]);
      var k := |s| - |TrimLeft(s)|;
      assert s[1..][k - 1..] == s[k..];
      assert forall j :: 1 <= j < k ==> s[j] == s[1..][..k - 1][j - 1];
    }
  }

  /** `s.rstrip()` */
  function TrimRight(s: string): (r: string)
    ensures |r| <= |s|
    ensures r == [] || !IsSpace(r[|r| - 1])
    decreases |s|
  {
    if |s| > 0 && IsSpace(s[|s| - 1]) then TrimRight(s[..|s| - 1]) else s
  }

  /** `rstrip()` removes a suffix made only of white space. */
  lemma {:induction false} TrimRightRemovesSpace(s: string)
    ensures TrimRight(s) == s[..|TrimRight(s)|]
    ensures AllSpace(s[|TrimRight(s)|..])
    decreases |s|
  {
    if |s| > 0 && IsSpace(s[|s| - 1]) {
      var s' := s[..|s| - 1];
      TrimRightRemovesSpace(s');
      var k := |TrimRight(s)|;
      assert s'[..k] == s[..k];
      assert forall j :: k <= j < |s| - 1 ==> s[j] == s'[k..][j - k];
    }
  }

  /** `s` is `r` with the all-white-space strings `s[..i]` in front and `s[i + |r|..]` behind. */
  predicate Surrounds(s: string, i: int, r: string) {
    0 <= i <= |s| - |r| && s[i..i + |r|] == r && AllSpace(s[..i]) && AllSpace(s[i + |r|..])
  }

  /** `s.strip()`: `s` without its leading and trailing white space. */
  function Strip(s: string): (r: string)
    ensures IsStripped(r)
    ensures IsStripped(s) ==> r == s
  {
    TrimRightRemovesSpace(TrimLeft(s));
    TrimRight(TrimLeft(s))
  }

  /** What `strip()` removes is white space and nothing else: `s` is the
      stripped string with white space in front of it and behind it. */
  lemma StripSurrounds(s: string)
    ensures Surrounds(s, |s| - |TrimLeft(s)|, Strip(s))
  {
    var l := TrimLeft(s);
    var r := Strip(s);
    var i := |s| - |l|;
    TrimLeftRemovesSpace(s);
    TrimRightRemovesSpace(l);
    assert l == s[i..];
    assert s[i..i + |r|] == r;
    assert s[i + |r|..] == l[|r|..];
  }

  /** The path separator `os.sep` on a POSIX system. */
  const Sep: char := '/'

  /** `os.path.join(root, name)` as POSIX defines it: an absolute `name`
      replaces `root`; otherwise a separator is inserted unless `root` is
      empty or already ends with one. */
  function Join(root: string, name: string): (r: string)
    ensures EndsWith(r, name)
  {
    if |name| > 0 && name[0] == Sep then name
    else if root == [] || root[|root| - 1] == Sep then root + name
    else root + [Sep] + name
  }

  /** For a relative `name`, the joined path is a directory part followed by
      `name`, where the directory part is `root`, with a separator appended
      unless `root` is empty or already ends in one. */
  lemma JoinDirectory(root: string, name: string)
    requires name == [] || name[0] != Sep
    ensures var r := Join(root, name);
            var dir := r[..|r| - |name|];
            && r == dir + name
            && (dir == root || dir == root + [Sep])
            && (dir == [] || dir[|dir| - 1] == Sep)
            && (root == [] || root[|root| - 1] == Sep ==> dir == root)
            && (root != [] && root[|root| - 1] != Sep ==> dir == root + [Sep])
  {
    var r := Join(root, name);
    assert r == r[..|r| - |name|] + name;
  }
}
