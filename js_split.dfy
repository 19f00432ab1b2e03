/**
 * `String.prototype.split(", ")` and the matching `join(", ")`. The
 * separator cannot overlap itself, so splitting cuts at every occurrence
 * found scanning left to right.
 */
module JsSplit {

  const Separator: string := ", "

  /** The separator starts at position `i` of `s`. */
  predicate SeparatorAt(s: string, i: int) {
    0 <= i && i + 1 < |s| && s[i] == ',' && s[i + 1] == ' '
  }

  predicate ContainsSeparator(s: string) {
    exists i :: 0 <= i < |s| && SeparatorAt(s, i)
  }

  /** `s.split(", ")`: the pieces between the occurrences of the separator. */
  function Split(s: string): (parts: seq<string>)
    ensures |parts| >= 1
    ensures parts[0] <= s
    decreases |s|
  {
    if |s| < 2 then [s]
    else if SeparatorAt(s, 0) then [""] + Split(s[2..])
    else
      var rest := Split(s[1..]);
      [[s[0]] + rest[0]] + rest[1..]
  }

  /** `parts.join(", ")`. */
  function Join(parts: seq<string>): string
    requires |parts| >= 1
  {
    if |parts| == 1 then parts[0] else parts[0] + Separator + Join(parts[1..])
  }

  /** Every piece is at most as long as the pieces joined. */
  lemma {:induction false} PartShorter(parts: seq<string>, k: int)
    requires 0 <= k < |parts|
    ensures |parts[k]| <= |Join(parts)|
  {
    if k > 0 {
      PartShorter(parts[1..], k - 1);
    }
  }

  /** Joining the pieces gives back the string. */
  lemma {:induction false} JoinSplit(s: string)
    ensures Join(Split(s)) == s
    decreases |s|
  {
    if |s| < 2 {
    } else if SeparatorAt(s, 0) {
      JoinSplit(s[2..]);
      assert s == Separator + s[2..];
      assert ([""] + Split(s[2..]))[1..] == Split(s[2..]);
    } else {
      var rest := Split(s[1..]);
      JoinSplit(s[1..]);
      var parts := [[s[0]] + rest[0]] + rest[1..];
      if |rest| == 1 {
        assert s == [s[0]] + s[1..];
      } else {
        assert parts[1..] == rest[1..];
        assert s == [s[0]] + s[1..];
      }
    }
  }

  /** No piece contains the separator. */
  lemma {:induction false} SplitPartsClean(s: string)
    ensures forall k :: 0 <= k < |Split(s)| ==> !ContainsSeparator(Split(s)[k])
    decreases |s|
  {
    if |s| < 2 {
      assert !SeparatorAt(s, 0);
    } else if SeparatorAt(s, 0) {
      SplitPartsClean(s[2..]);
      assert !ContainsSeparator("");
    } else {
      var rest := Split(s[1..]);
      SplitPartsClean(s[1..]);
      var first := [s[0]] + rest[0];
      forall i | 0 <= i < |first| ensures !SeparatorAt(first, i) {
        if i == 0 {
          if |first| > 1 {
            assert first[1] == rest[0][0] == s[1];
          }
        } else {
          assert SeparatorAt(first, i) == SeparatorAt(rest[0], i - 1);
        }
      }
    }
  }

  /** A string without the separator splits into itself alone. */
  lemma {:induction false} SplitWithoutSeparator(s: string)
    requires !ContainsSeparator(s)
    ensures Split(s) == [s]
    decreases |s|
  {
    if |s| >= 2 {
      assert !SeparatorAt(s, 0);
      forall i | 0 <= i < |s| - 1 ensures !SeparatorAt(s[1..], i) {
        assert SeparatorAt(s[1..], i) == SeparatorAt(s, i + 1);
      }
      SplitWithoutSeparator(s[1..]);
      assert s == [s[0]] + s[1..];
    }
  }

  /** The join of two or more pieces ends with the separator and the last piece. */
  lemma {:induction false} JoinLast(parts: seq<string>)
    requires |parts| >= 2
    ensures var last := parts[|parts| - 1];
      Join(parts) == Join(parts[..|parts| - 1]) + Separator + last
  {
    if |parts| > 2 {
      JoinLast(parts[1..]);
      assert parts[1..][..|parts| - 2] == parts[..|parts| - 1][1..];
    }
  }
}
