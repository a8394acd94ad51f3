/** String helpers used by the recommendation step: the case mapping behind
    Python's `str.lower()` (ASCII letters only) and `", ".join(...)`, together
    with a splitting function that undoes the join. */
module Text {

  predicate IsUpper(c: char) {
    'A' <= c <= 'Z'
  }

  /** Lower-case one character: ASCII capitals map to their small letter,
      every other character is left as it is. */
  function LowerChar(c: char): char {
    if IsUpper(c) then (c as int + 32) as char else c
  }

  /** `s.lower()`: the character-wise case mapping of `s`. */
  function Lower(s: string): (r: string)
    ensures |r| == |s|
    ensures forall i :: 0 <= i < |s| ==> r[i] == LowerChar(s[i])
    ensures forall i :: 0 <= i < |r| ==> !IsUpper(r[i])
  {
    if s == [] then [] else [LowerChar(s[0])] + Lower(s[1..])
  }

  /** Lower-casing twice is lower-casing once. */
  lemma {:induction false} LowerIdempotent(s: string)
    ensures Lower(Lower(s)) == Lower(s)
  {
    var l := Lower(s);
    assert forall i :: 0 <= i < |l| ==> LowerChar(l[i]) == l[i];
  }

  /** Two strings agree up to case when their lower-cased forms are equal. */
  predicate EqualIgnoringCase(a: string, b: string) {
    Lower(a) == Lower(b)
  }

  /** `sep.join(parts)`: the parts in order with `sep` between neighbours. */
  function Join(parts: seq<string>, sep: string): (r: string)
    ensures |parts| == 0 ==> r == ""
    ensures |parts| > 0 ==> |r| >= |parts[0]| && r[..|parts[0]|] == parts[0]
  {
    if |parts| == 0 then ""
    else if |parts| == 1 then parts[0]
    else parts[0] + sep + Join(parts[1..], sep)
  }

  /** Total length of a sequence of strings. */
  function TotalLength(parts: seq<string>): nat {
    if parts == [] then 0 else |parts[0]| + TotalLength(parts[1..])
  }

  /** The joined length is the parts' total length plus one separator per
      neighbouring pair. */
  lemma {:induction false} JoinLength(parts: seq<string>, sep: string)
    requires |parts| > 0
    ensures |Join(parts, sep)| == TotalLength(parts) + (|parts| - 1) * |sep|
  {
    if |parts| > 1 {
      JoinLength(parts[1..], sep);
    }
  }

  /** Where part `k` starts in the joined string: the parts before it, each
      followed by one separator. */
  function Offset(parts: seq<string>, sep: string, k: nat): nat
    requires k <= |parts|
  {
    if k == 0 then 0 else |parts[0]| + |sep| + Offset(parts[1..], sep, k - 1)
  }

  /** A slice of the right operand of a concatenation, read through the whole. */
  lemma SliceOfRight(a: string, b: string, i: int, j: int)
    requires 0 <= i <= j <= |b|
    ensures (a + b)[|a| + i..|a| + j] == b[i..j]
  {
    assert (a + b)[|a|..] == b;
    assert (a + b)[|a| + i..|a| + j] == (a + b)[|a|..][i..j];
  }

  /** The joined string is the first part, the separator, then the join of
      the remaining parts. */
  lemma JoinCons(parts: seq<string>, sep: string)
    requires |parts| > 1
    ensures Join(parts, sep) == (parts[0] + sep) + Join(parts[1..], sep)
  {
  }

  /** Every part sits, in order, at its offset in the joined string. */
  lemma {:induction false} JoinPartAt(parts: seq<string>, sep: string, k: nat)
    requires k < |parts|
    ensures Offset(parts, sep, k) + |parts[k]| <= |Join(parts, sep)|
    ensures Join(parts, sep)[Offset(parts, sep, k)..Offset(parts, sep, k) + |parts[k]|] == parts[k]
  {
    if |parts| > 1 {
      JoinCons(parts, sep);
      var head, tail := parts[0] + sep, Join(parts[1..], sep);
      if k == 0 {
        assert (head + tail)[..|parts[0]|] == parts[0];
      } else {
        JoinPartAt(parts[1..], sep, k - 1);
        var o := Offset(parts[1..], sep, k - 1);
        assert parts[1..][k - 1] == parts[k];
        SliceOfRight(head, tail, o, o + |parts[k]|);
      }
    }
  }

  /** Every part but the last is followed by the separator in the joined string. */
  lemma {:induction false} JoinSeparatorAt(parts: seq<string>, sep: string, k: nat)
    requires k + 1 < |parts|
    ensures Offset(parts, sep, k) + |parts[k]| + |sep| <= |Join(parts, sep)|
    ensures Join(parts, sep)[Offset(parts, sep, k) + |parts[k]|..Offset(parts, sep, k) + |parts[k]| + |sep|] == sep
  {
    JoinCons(parts, sep);
    var head, tail := parts[0] + sep, Join(parts[1..], sep);
    if k == 0 {
      assert (head + tail)[|parts[0]|..|head|] == sep;
    } else {
      JoinSeparatorAt(parts[1..], sep, k - 1);
      var e := Offset(parts[1..], sep, k - 1) + |parts[k]|;
      assert parts[1..][k - 1] == parts[k];
      SliceOfRight(head, tail, e, e + |sep|);
    }
  }

  /** Index of the first ", " in `s`, or `|s|` when there is none. */
  function FindSeparator(s: string): (k: nat)
    ensures k == |s| || (k + 2 <= |s| && s[k] == ',' && s[k + 1] == ' ')
    ensures forall j :: 0 <= j < k && j + 1 < |s| ==> !(s[j] == ',' && s[j + 1] == ' ')
  {
    if |s| < 2 then |s|
    else if s[0] == ',' && s[1] == ' ' then 0
    else 1 + FindSeparator(s[1..])
  }

  /** The pieces of `s` between occurrences of ", ": the inverse of `Join`
      with that separator, used to show that a joined field can be read back. */
  function Split(s: string): (parts: seq<string>)
    ensures |parts| > 0
    decreases |s|
  {
    var k := FindSeparator(s);
    if k == |s| then [s] else [s[..k]] + Split(s[k + 2..])
  }

  predicate NoComma(s: string) {
    forall i :: 0 <= i < |s| ==> s[i] != ','
  }

  /** In `p + ", " + rest` with no comma in `p`, the first separator sits right after `p`. */
  lemma {:induction false} FindSeparatorAfter(p: string, rest: string)
    requires NoComma(p)
    ensures FindSeparator(p + ", " + rest) == |p|
  {
    if p != [] {
      assert (p + ", " + rest)[1..] == p[1..] + ", " + rest;
      FindSeparatorAfter(p[1..], rest);
    }
  }

  /** A string without a comma is not split at all. */
  lemma {:induction false} FindSeparatorNone(p: string)
    requires NoComma(p)
    ensures FindSeparator(p) == |p|
  {
    if |p| >= 2 {
      FindSeparatorNone(p[1..]);
    }
  }

  /** Splitting `p + ", " + rest` with no comma in `p` cuts off exactly `p`. */
  lemma SplitAfter(p: string, rest: string)
    requires NoComma(p)
    ensures Split(p + ", " + rest) == [p] + Split(rest)
  {
    var s := p + ", " + rest;
    FindSeparatorAfter(p, rest);
    assert s[..|p|] == p;
    assert s[|p| + 2..] == rest;
  }

  /** Joining with ", " and splitting on ", " gives the parts back, as long as
      there is at least one part and no part contains a comma. */
  lemma {:induction false} SplitJoin(parts: seq<string>)
    requires |parts| > 0
    requires forall i :: 0 <= i < |parts| ==> NoComma(parts[i])
    ensures Split(Join(parts, ", ")) == parts
  {
    if |parts| == 1 {
      FindSeparatorNone(parts[0]);
    } else {
      JoinCons(parts, ", ");
      SplitAfter(parts[0], Join(parts[1..], ", "));
      SplitJoin(parts[1..]);
      assert parts == [parts[0]] + parts[1..];
    }
  }
}
