/** The two string operations the coder takes from Python's `str`: lower-casing
    (restricted here to ASCII letters) and `sep.join(parts)`. */
module Text {

  predicate IsUpperChar(c: char) {
    'A' <= c <= 'Z'
  }

  /** Lower-cases one ASCII letter; every other character is left as it is. */
  function LowerChar(c: char): (r: char)
    ensures !IsUpperChar(r)
    ensures IsUpperChar(c) ==> r as int == c as int + 32
    ensures !IsUpperChar(c) ==> r == c
  {
    if IsUpperChar(c) then (c as int - 'A' as int + 'a' as int) as char else c
  }

  /** A string with no upper-case ASCII letter. */
  predicate IsLower(s: string) {
    forall i :: 0 <= i < |s| ==> !IsUpperChar(s[i])
  }

  /** `s.lower()`, restricted to ASCII. */
  function Lower(s: string): (r: string)
    ensures |r| == |s|
  {
    if s == [] then [] else [LowerChar(s[0])] + Lower(s[1..])
  }

  /** Lower-casing works character by character. */
  lemma {:induction false} LowerAt(s: string)
    ensures forall i :: 0 <= i < |s| ==> Lower(s)[i] == LowerChar(s[i])
  {
    if s != [] {
      LowerAt(s[1..]);
      assert Lower(s) == [LowerChar(s[0])] + Lower(s[1..]);
    }
  }

  /** Lower-casing leaves no upper-case letter, and a lower-case string is its own lower case. */
  lemma LowerIsLower(s: string)
    ensures IsLower(Lower(s))
    ensures IsLower(s) ==> Lower(s) == s
    ensures Lower(Lower(s)) == Lower(s)
  {
    var r := Lower(s);
    LowerAt(s);
    LowerAt(r);
    if IsLower(s) {
      assert forall i :: 0 <= i < |s| ==> r[i] == s[i];
    }
    assert forall i :: 0 <= i < |s| ==> Lower(r)[i] == r[i];
  }

  /** Every slice of a lower-case string is lower-case. */
  lemma SliceIsLower(s: string, lo: nat, hi: nat)
    requires IsLower(s) && lo <= hi <= |s|
    ensures IsLower(s[lo..hi])
  {
    assert forall i :: 0 <= i < hi - lo ==> s[lo..hi][i] == s[lo + i];
  }

  /** `sep.join(parts)`: the parts in order with `sep` between neighbours. */
  function Join(sep: string, parts: seq<string>): string
  {
    if parts == [] then ""
    else if |parts| == 1 then parts[0]
    else parts[0] + sep + Join(sep, parts[1..])
  }

  /** Where `parts[k]` starts inside `Join(sep, parts)`: the lengths of the parts
      before it, each followed by one separator. */
  function Offset(sep: string, parts: seq<string>, k: nat): nat
    requires k <= |parts|
  {
    if k == 0 then 0 else |parts[0]| + |sep| + Offset(sep, parts[1..], k - 1)
  }

  /** A slice that lies wholly in the first operand of a concatenation. */
  lemma SliceLeft(a: string, b: string, lo: nat, hi: nat)
    requires lo <= hi <= |a|
    ensures (a + b)[lo..hi] == a[lo..hi]
  {
    assert forall i :: 0 <= i < hi - lo ==> (a + b)[lo..hi][i] == a[lo + i];
  }

  /** A slice that lies wholly in the second operand of a concatenation. */
  lemma SliceRight(a: string, b: string, lo: nat, hi: nat)
    requires |a| <= lo <= hi <= |a| + |b|
    ensures (a + b)[lo..hi] == b[lo - |a|..hi - |a|]
  {
    assert forall i :: 0 <= i < hi - lo ==> (a + b)[lo..hi][i] == b[lo - |a| + i];
  }

  /** The join of two or more parts: the first, a separator, the join of the rest. */
  lemma JoinCons(sep: string, parts: seq<string>)
    requires |parts| > 1
    ensures Join(sep, parts) == (parts[0] + sep) + Join(sep, parts[1..])
  {
  }

  /** Where `parts[k]` starts, for `k > 0`: after the first part, a separator,
      and the offset of `parts[k]` among the rest. */
  lemma OffsetCons(sep: string, parts: seq<string>, k: nat)
    requires 0 < k <= |parts|
    ensures Offset(sep, parts, k) == |parts[0]| + |sep| + Offset(sep, parts[1..], k - 1)
  {
  }

  /** A slice of the join of the later parts, seen inside the join of all parts. */
  lemma JoinShift(sep: string, parts: seq<string>, a: nat, b: nat)
    requires |parts| > 1 && a <= b <= |Join(sep, parts[1..])|
    ensures |parts[0]| + |sep| + b <= |Join(sep, parts)|
    ensures Join(sep, parts)[|parts[0]| + |sep| + a..|parts[0]| + |sep| + b] == Join(sep, parts[1..])[a..b]
  {
    var head, rest := parts[0] + sep, Join(sep, parts[1..]);
    JoinCons(sep, parts);
    SliceRight(head, rest, |head| + a, |head| + b);
  }

  /** Joining puts `parts[k]` at its offset. */
  lemma {:induction false} JoinPartAt(sep: string, parts: seq<string>, k: nat)
    requires k < |parts|
    ensures Offset(sep, parts, k) + |parts[k]| <= |Join(sep, parts)|
    ensures Join(sep, parts)[Offset(sep, parts, k)..Offset(sep, parts, k) + |parts[k]|] == parts[k]
  {
    var r := Join(sep, parts);
    var lo := Offset(sep, parts, k);
    if |parts| == 1 {
      assert r == parts[0] && lo == 0;
    } else {
      var first, tail := parts[0], parts[1..];
      var head, rest := first + sep, Join(sep, tail);
      JoinCons(sep, parts);
      assert r == head + rest;
      if k == 0 {
        assert lo == 0;
        SliceLeft(head, rest, 0, |first|);
        SliceLeft(first, sep, 0, |first|);
        assert first[0..|first|] == first;
      } else {
        JoinPartAt(sep, tail, k - 1);
        var a := Offset(sep, tail, k - 1);
        JoinShift(sep, parts, a, a + |tail[k - 1]|);
        assert tail[k - 1] == parts[k];
        OffsetCons(sep, parts, k);
      }
    }
  }

  /** The separator follows the first part when there is more than one. */
  lemma JoinFirstSeparator(sep: string, parts: seq<string>)
    requires |parts| > 1
    ensures |parts[0]| + |sep| <= |Join(sep, parts)|
    ensures Join(sep, parts)[|parts[0]|..|parts[0]| + |sep|] == sep
  {
    var first := parts[0];
    var head, rest := first + sep, Join(sep, parts[1..]);
    JoinCons(sep, parts);
    SliceLeft(head, rest, |first|, |first| + |sep|);
    SliceRight(first, sep, |first|, |first| + |sep|);
    assert sep[0..|sep|] == sep;
  }

  /** Joining puts the separator right after every part but the last. */
  lemma {:induction false} JoinSeparatorAt(sep: string, parts: seq<string>, k: nat)
    requires k + 1 < |parts|
    ensures Offset(sep, parts, k) + |parts[k]| + |sep| <= |Join(sep, parts)|
    ensures Join(sep, parts)[Offset(sep, parts, k) + |parts[k]|..Offset(sep, parts, k) + |parts[k]| + |sep|] == sep
  {
    if k == 0 {
      JoinFirstSeparator(sep, parts);
    } else {
      var tail := parts[1..];
      JoinSeparatorAt(sep, tail, k - 1);
      var a := Offset(sep, tail, k - 1) + |tail[k - 1]|;
      JoinShift(sep, parts, a, a + |sep|);
      assert tail[k - 1] == parts[k];
      OffsetCons(sep, parts, k);
    }
  }

  /** Nothing follows the last part. */
  lemma {:induction false} JoinEndsWithLast(sep: string, parts: seq<string>)
    requires parts != []
    ensures Offset(sep, parts, |parts| - 1) + |parts[|parts| - 1]| == |Join(sep, parts)|
  {
    if |parts| > 1 {
      JoinCons(sep, parts);
      JoinEndsWithLast(sep, parts[1..]);
      OffsetCons(sep, parts, |parts| - 1);
    }
  }

  /** `r` holds `part` at `o`, followed by `sep`, or ending `r` when it is the
      last part. */
  predicate PartThenSep(r: string, part: string, o: nat, sep: string, isLast: bool) {
    o + |part| <= |r| && r[o..o + |part|] == part &&
    (!isLast ==> o + |part| + |sep| <= |r| && r[o + |part|..o + |part| + |sep|] == sep) &&
    (isLast ==> o + |part| == |r|)
  }

  /** Joining puts each part at its offset, followed by the separator unless it
      is the last one, and nothing follows the last part. */
  lemma JoinAt(sep: string, parts: seq<string>, k: nat)
    requires k < |parts|
    ensures PartThenSep(Join(sep, parts), parts[k], Offset(sep, parts, k), sep, k + 1 == |parts|)
  {
    JoinPartAt(sep, parts, k);
    if k + 1 < |parts| {
      JoinSeparatorAt(sep, parts, k);
    } else {
      JoinEndsWithLast(sep, parts);
    }
  }

  /** `r` holds `part` at `o`, followed by a single space, or ending `r` when it
      is the last part. */
  predicate PartThenSpace(r: string, part: string, o: nat, isLast: bool) {
    o + |part| <= |r| && r[o..o + |part|] == part &&
    (!isLast ==> o + |part| < |r| && r[o + |part|] == ' ') &&
    (isLast ==> o + |part| == |r|)
  }

  /** `r` holds `parts[k]` at its offset in a space-separated join, followed by
      a single space unless it is the last part, which ends `r`. */
  predicate SpacedPartAt(r: string, parts: seq<string>, k: nat)
    requires k < |parts|
  {
    PartThenSpace(r, parts[k], Offset(" ", parts, k), k + 1 == |parts|)
  }

  /** A one-character separator `" "` is the character `' '` at its index. */
  lemma SpaceSeparator(r: string, part: string, o: nat, isLast: bool)
    requires PartThenSep(r, part, o, " ", isLast)
    ensures PartThenSpace(r, part, o, isLast)
  {
    if !isLast {
      assert r[o + |part|] == r[o + |part|..o + |part| + 1][0];
    }
  }

  /** `' '.join(parts)` holds every part at its offset, separated by single spaces. */
  lemma JoinWithSpaceAt(parts: seq<string>, k: nat)
    requires k < |parts|
    ensures SpacedPartAt(Join(" ", parts), parts, k)
  {
    JoinAt(" ", parts, k);
    SpaceSeparator(Join(" ", parts), parts[k], Offset(" ", parts, k), k + 1 == |parts|);
  }

  /** Joining lower-case parts with a lower-case separator gives a lower-case string. */
  lemma {:induction false} JoinIsLower(sep: string, parts: seq<string>)
    requires IsLower(sep)
    requires forall k :: 0 <= k < |parts| ==> IsLower(parts[k])
    ensures IsLower(Join(sep, parts))
  {
    if |parts| > 1 {
      JoinIsLower(sep, parts[1..]);
      var head := parts[0] + sep;
      var rest := Join(sep, parts[1..]);
      assert IsLower(parts[0]);
      assert forall i :: 0 <= i < |head| + |rest| ==>
        (head + rest)[i] == if i < |parts[0]| then parts[0][i]
                            else if i < |head| then sep[i - |parts[0]|]
                            else rest[i - |head|];
    }
  }

  /** A join that contains a non-empty part is non-empty. */
  lemma {:induction false} JoinNonEmpty(sep: string, parts: seq<string>, k: nat)
    requires k < |parts| && parts[k] != ""
    ensures Join(sep, parts) != ""
  {
    JoinPartAt(sep, parts, k);
  }
}
