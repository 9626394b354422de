/**
 The Python string operations the chunking pipeline is built from:
 `str.rfind`, `str.join`, and the concatenation of a list of strings.
 */
module Strings {

  /** `sep` occurs in `s` starting at index `i`, that is `s[i:i+len(sep)] == sep`. */
  predicate OccursAt(s: string, sep: string, i: int)
  {
    0 <= i && i + |sep| <= |s| && s[i..i + |sep|] == sep
  }

  /** The largest index `i <= k` at which `sep` occurs in `s`, or -1 when there is none. */
  function LastOccurrenceUpTo(s: string, sep: string, k: int): (r: int)
    ensures r == -1 || (0 <= r <= k && OccursAt(s, sep, r))
    ensures forall j :: r < j <= k ==> !OccursAt(s, sep, j)
    decreases if k < 0 then 0 else k + 1
  {
    if k < 0 then -1
    else if OccursAt(s, sep, k) then k
    else LastOccurrenceUpTo(s, sep, k - 1)
  }

  /** Python's `s.rfind(sep)`: where the last occurrence of `sep` in `s` starts, or -1. */
  function RFind(s: string, sep: string): (r: int)
    ensures r == -1 ==> forall i :: !OccursAt(s, sep, i)
    ensures r != -1 ==> OccursAt(s, sep, r) && forall j :: r < j ==> !OccursAt(s, sep, j)
    ensures sep == [] ==> r == |s|
  {
    assert sep == [] ==> OccursAt(s, sep, |s|);
    LastOccurrenceUpTo(s, sep, |s| - |sep|)
  }

  /** `"".join(parts)`, or for lists, the lists one after the other. */
  function Concat<T>(parts: seq<seq<T>>): seq<T>
  {
    if |parts| == 0 then [] else parts[0] + Concat(parts[1..])
  }

  /** Python's `sep.join(parts)`. */
  function Join(parts: seq<string>, sep: string): string
  {
    if |parts| == 0 then ""
    else if |parts| == 1 then parts[0]
    else parts[0] + sep + Join(parts[1..], sep)
  }

  /** Where `parts[k]` starts in `Join(parts, sep)`: the parts before it and one separator after each. */
  function JoinOffset(parts: seq<string>, sep: string, k: nat): nat
    requires k <= |parts|
  {
    |Concat(parts[..k])| + k * |sep|
  }

  /** The joined string is the parts' text plus one separator between each two neighbours. */
  lemma {:induction false} JoinLength(parts: seq<string>, sep: string)
    ensures |Join(parts, sep)| == |Concat(parts)| + (if |parts| == 0 then 0 else (|parts| - 1) * |sep|)
  {
    if |parts| > 1 {
      JoinLength(parts[1..], sep);
    }
  }

  /** Dropping the first part moves every later offset back by that part and one separator. */
  lemma JoinOffsetTail(parts: seq<string>, sep: string, k: nat)
    requires 1 <= k <= |parts|
    ensures JoinOffset(parts, sep, k) == |parts[0]| + |sep| + JoinOffset(parts[1..], sep, k - 1)
  {
    var pre := parts[..k];
    assert pre[0] == parts[0] && pre[1..] == parts[1..][..k - 1];
  }

  lemma SliceAfter(a: string, b: string, i: nat, j: nat)
    requires i <= j <= |b|
    ensures (a + b)[|a| + i..|a| + j] == b[i..j]
  {
    var x, y := (a + b)[|a| + i..|a| + j], b[i..j];
    forall t | 0 <= t < j - i
      ensures x[t] == y[t]
    {
    }
    assert x == y;
  }

  /**
   The joined string holds every part, in order, at its offset, and exactly the separator
   between a part and the next: nothing is reordered, dropped or trimmed.
   */
  lemma {:induction false} JoinAt(parts: seq<string>, sep: string, k: nat)
    requires k < |parts|
    ensures JoinOffset(parts, sep, k) + |parts[k]| <= |Join(parts, sep)|
    ensures Join(parts, sep)[JoinOffset(parts, sep, k)..JoinOffset(parts, sep, k) + |parts[k]|] == parts[k]
    ensures k + 1 < |parts| ==>
      JoinOffset(parts, sep, k + 1) == JoinOffset(parts, sep, k) + |parts[k]| + |sep| &&
      JoinOffset(parts, sep, k + 1) <= |Join(parts, sep)| &&
      Join(parts, sep)[JoinOffset(parts, sep, k) + |parts[k]|..JoinOffset(parts, sep, k + 1)] == sep
  {
    if k == 0 {
      assert parts[..0] == [];
      if |parts| > 1 {
        JoinOffsetTail(parts, sep, 1);
        assert parts[1..][..0] == [];
        var rest := Join(parts[1..], sep);
        assert Join(parts, sep) == parts[0] + sep + rest;
        assert (parts[0] + sep + rest)[|parts[0]|..|parts[0]| + |sep|] == sep;
      }
    } else {
      var rest := parts[1..];
      var head := parts[0] + sep;
      JoinAt(rest, sep, k - 1);
      JoinOffsetTail(parts, sep, k);
      assert Join(parts, sep) == head + Join(rest, sep);
      var o := JoinOffset(rest, sep, k - 1);
      SliceAfter(head, Join(rest, sep), o, o + |parts[k]|);
      if k + 1 < |parts| {
        JoinOffsetTail(parts, sep, k + 1);
        SliceAfter(head, Join(rest, sep), o + |parts[k]|, JoinOffset(rest, sep, k));
      }
    }
  }
}
