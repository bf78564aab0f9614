/**
  The parts of Python's `str` semantics that the listener relies on:
  slicing (`s[a:b]`, which clamps its bounds and never fails), ASCII
  lowercasing and `" ".join(parts)`. `s.split(" ")` is not used by the
  listener; it is here as the reference inverse of the join, to show that a
  joined string of handles determines the handles.
*/
module PyStr {

  /** Python's normalisation of a slice bound `i` against a string of length `n`:
      a negative bound counts back from the end, then the bound is clamped to [0, n]. */
  function SliceBound(i: int, n: nat): (k: nat)
    ensures k <= n
    ensures 0 <= i <= n ==> k == i
    ensures i < 0 && 0 <= n + i ==> k == n + i
  {
    if i < 0 then (if i + n < 0 then 0 else i + n)
    else if i > n then n else i
  }

  /** `s[a:b]`. */
  function Slice(s: string, a: int, b: int): (r: string)
    ensures |r| <= |s|
    ensures 0 <= a <= b <= |s| ==> r == s[a..b]
    // whatever the bounds, the result is the piece of `s` that starts at the normalised start
    ensures SliceBound(a, |s|) + |r| <= |s| && r == s[SliceBound(a, |s|)..SliceBound(a, |s|) + |r|]
    // and it is empty exactly when the normalised bounds do not enclose a character
    ensures r == [] <==> SliceBound(b, |s|) <= SliceBound(a, |s|)
    // and its length is the distance between the clamped bounds
    ensures |r| == if SliceBound(a, |s|) < SliceBound(b, |s|) then SliceBound(b, |s|) - SliceBound(a, |s|) else 0
  {
    var lo, hi := SliceBound(a, |s|), SliceBound(b, |s|);
    if lo < hi then s[lo..hi] else []
  }

  /** Python's `c.lower()` restricted to ASCII: only 'A'..'Z' change. */
  function LowerChar(c: char): char
  {
    if 'A' <= c <= 'Z' then (c as int - 'A' as int + 'a' as int) as char else c
  }

  /** `s.lower()`, character by character. */
  function Lower(s: string): (r: string)
    ensures |r| == |s|
    ensures forall i :: 0 <= i < |s| ==> r[i] == LowerChar(s[i])
  {
    if s == [] then [] else [LowerChar(s[0])] + Lower(s[1..])
  }

  /** Sum of the lengths of `parts`. */
  function TotalLength(parts: seq<string>): nat
  {
    if parts == [] then 0 else |parts[0]| + TotalLength(parts[1..])
  }

  /** `" ".join(parts)`. */
  function Join(parts: seq<string>): (r: string)
    ensures parts == [] ==> r == []
    ensures parts != [] ==> |r| == TotalLength(parts) + |parts| - 1
  {
    if parts == [] then []
    else if |parts| == 1 then parts[0]
    else parts[0] + " " + Join(parts[1..])
  }

  /** Position of the first `c` in `s`, or `|s|` when there is none. */
  function FirstIndexOf(s: string, c: char): (k: nat)
    ensures k <= |s|
    ensures k < |s| ==> s[k] == c
    ensures forall j :: 0 <= j < k ==> s[j] != c
  {
    if s == [] then 0
    else if s[0] == c then 0
    else 1 + FirstIndexOf(s[1..], c)
  }

  /** `s.split(" ")`: the pieces between single spaces, never an empty list. */
  function Split(s: string): (parts: seq<string>)
    ensures |parts| >= 1
    decreases |s|
  {
    var k := FirstIndexOf(s, ' ');
    if k == |s| then [s] else [s[..k]] + Split(s[k + 1..])
  }

  /** Splitting on spaces undoes joining with spaces, as long as no piece holds a space
      (as with screen names). */
  lemma {:induction false} SplitJoin(parts: seq<string>)
    requires parts != []
    requires forall i :: 0 <= i < |parts| ==> ' ' !in parts[i]
    ensures Split(Join(parts)) == parts
  {
    var p := parts[0];
    var s := Join(parts);
    if |parts| == 1 {
      assert s == p;
      assert FirstIndexOf(s, ' ') == |s|;
    } else {
      var rest := parts[1..];
      assert s == p + " " + Join(rest);
      assert s[|p|] == ' ';
      assert FirstIndexOf(s, ' ') == |p|;
      assert s[..|p|] == p;
      assert s[|p| + 1..] == Join(rest);
      SplitJoin(rest);
      assert [p] + rest == parts;
    }
  }

  /** Joining with spaces undoes splitting on spaces, for every string. */
  lemma {:induction false} JoinSplit(s: string)
    ensures Join(Split(s)) == s
    decreases |s|
  {
    var k := FirstIndexOf(s, ' ');
    if k < |s| {
      var tail := s[k + 1..];
      JoinSplit(tail);
      var rest := Split(tail);
      assert Split(s) == [s[..k]] + rest;
      assert ([s[..k]] + rest)[1..] == rest;
      assert Join(Split(s)) == s[..k] + " " + Join(rest);
      assert s == s[..k] + " " + tail;
    }
  }
}
