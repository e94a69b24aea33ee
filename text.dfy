/**
 * Python's `str.replace(old, new)` for a non-empty `old`, and an independent
 * reference for it: `new.join(s.split(old))`. Both scan `s` from an index
 * `from` onwards, so that no proof has to shift a slice.
 */
module Text {

  /** `s[k:k+|p|] == p` */
  predicate OccursAt(s: string, p: string, k: int)
  {
    0 <= k && k + |p| <= |s| && s[k..k + |p|] == p
  }

  ghost predicate Contains(s: string, p: string)
  {
    exists k :: OccursAt(s, p, k)
  }

  /** `s[from:].replace(p, r)`: left to right, non-overlapping occurrences. */
  function ReplaceFrom(s: string, p: string, r: string, from: nat): string
    requires p != [] && from <= |s|
    decreases |s| - from
  {
    if from + |p| > |s| then s[from..]
    else if OccursAt(s, p, from) then r + ReplaceFrom(s, p, r, from + |p|)
    else [s[from]] + ReplaceFrom(s, p, r, from + 1)
  }

  /** `s.replace(p, r)` */
  function ReplaceAll(s: string, p: string, r: string): string
    requires p != []
  {
    ReplaceFrom(s, p, r, 0)
  }

  /** `s.find(p, from)`: the first index from `from` on where `p` occurs, or -1. */
  function FindFrom(s: string, p: string, from: nat): (i: int)
    requires p != []
    ensures i == -1 || (from <= i && OccursAt(s, p, i))
    ensures forall k :: from <= k && (i == -1 || k < i) ==> !OccursAt(s, p, k)
    decreases |s| - from
  {
    if from + |p| > |s| then -1
    else if OccursAt(s, p, from) then from
    else FindFrom(s, p, from + 1)
  }

  /** `s[from:].split(p)`: the pieces between occurrences of `p`, at least one. */
  function SplitFrom(s: string, p: string, from: nat): (parts: seq<string>)
    requires p != [] && from <= |s|
    ensures |parts| >= 1
    decreases |s| - from
  {
    var i := FindFrom(s, p, from);
    if i == -1 then [s[from..]] else [s[from..i]] + SplitFrom(s, p, i + |p|)
  }

  /** `s.split(p)` */
  function Split(s: string, p: string): (parts: seq<string>)
    requires p != []
  {
    SplitFrom(s, p, 0)
  }

  /** `sep.join(parts)` */
  function Join(parts: seq<string>, sep: string): string
  {
    if |parts| == 0 then ""
    else if |parts| == 1 then parts[0]
    else parts[0] + sep + Join(parts[1..], sep)
  }

  lemma JoinCons(a: string, rest: seq<string>, sep: string)
    requires |rest| >= 1
    ensures Join([a] + rest, sep) == a + sep + Join(rest, sep)
  {
    assert ([a] + rest)[1..] == rest;
  }

  /** No piece of a split contains the separator. */
  lemma {:induction false} SplitPiecesFree(s: string, p: string, from: nat)
    requires p != [] && from <= |s|
    ensures forall q :: q in SplitFrom(s, p, from) ==> !Contains(q, p)
    decreases |s| - from
  {
    var i := FindFrom(s, p, from);
    if i == -1 {
      forall k | OccursAt(s[from..], p, k) ensures OccursAt(s, p, from + k) {
        assert s[from..][k..k + |p|] == s[from + k..from + k + |p|];
      }
    } else {
      SplitPiecesFree(s, p, i + |p|);
      forall k | OccursAt(s[from..i], p, k) ensures OccursAt(s, p, from + k) {
        assert s[from..i][k..k + |p|] == s[from + k..from + k + |p|];
      }
    }
  }

  /** Joining the pieces of a split with the separator gives the text back. */
  lemma {:induction false} JoinSplit(s: string, p: string, from: nat)
    requires p != [] && from <= |s|
    ensures Join(SplitFrom(s, p, from), p) == s[from..]
    decreases |s| - from
  {
    var i := FindFrom(s, p, from);
    if i != -1 {
      JoinSplit(s, p, i + |p|);
      JoinCons(s[from..i], SplitFrom(s, p, i + |p|), p);
      assert s[from..] == s[from..i] + s[i..i + |p|] + s[i + |p|..];
    }
  }

  /**
   * `s.replace(p, r) == r.join(s.split(p))`: every occurrence of `p` found
   * by a left-to-right search, and nothing else, becomes `r`.
   */
  lemma {:induction false} ReplaceIsJoinSplit(s: string, p: string, r: string, from: nat)
    requires p != [] && from <= |s|
    ensures ReplaceFrom(s, p, r, from) == Join(SplitFrom(s, p, from), r)
    decreases |s| - from
  {
    if from + |p| > |s| {
      assert SplitFrom(s, p, from) == [s[from..]];
    } else if OccursAt(s, p, from) {
      ReplaceIsJoinSplit(s, p, r, from + |p|);
      var rest := SplitFrom(s, p, from + |p|);
      assert SplitFrom(s, p, from) == [""] + rest by {
        assert FindFrom(s, p, from) == from;
        assert s[from..from] == "";
      }
      JoinCons("", rest, r);
      assert ReplaceFrom(s, p, r, from) == r + ReplaceFrom(s, p, r, from + |p|);
    } else {
      ReplaceIsJoinSplit(s, p, r, from + 1);
      SkipOneCharacter(s, p, r, from);
    }
  }

  /** Where `p` does not occur at `from`, the first piece of the split grows by `s[from]`. */
  lemma SkipOneCharacter(s: string, p: string, r: string, from: nat)
    requires p != [] && from + |p| <= |s| && !OccursAt(s, p, from)
    ensures Join(SplitFrom(s, p, from), r) == [s[from]] + Join(SplitFrom(s, p, from + 1), r)
  {
    var i := FindFrom(s, p, from);
    assert i == FindFrom(s, p, from + 1);
    if i == -1 {
      assert SplitFrom(s, p, from) == [s[from..]];
      assert SplitFrom(s, p, from + 1) == [s[from + 1..]];
      assert [s[from]] + s[from + 1..] == s[from..];
    } else {
      var rest := SplitFrom(s, p, i + |p|);
      assert SplitFrom(s, p, from) == [s[from..i]] + rest;
      assert SplitFrom(s, p, from + 1) == [s[from + 1..i]] + rest;
      JoinCons(s[from..i], rest, r);
      JoinCons(s[from + 1..i], rest, r);
      assert [s[from]] + s[from + 1..i] == s[from..i];
    }
  }

  /** `s.replace(p, r) == r.join(s.split(p))` on the whole text. */
  lemma ReplaceAllIsJoinSplit(s: string, p: string, r: string)
    requires p != []
    ensures ReplaceAll(s, p, r) == Join(Split(s, p), r)
    ensures forall q :: q in Split(s, p) ==> !Contains(q, p)
    ensures Join(Split(s, p), p) == s
  {
    ReplaceIsJoinSplit(s, p, r, 0);
    SplitPiecesFree(s, p, 0);
    JoinSplit(s, p, 0);
  }

  /** Text without the pattern is left as it is. */
  lemma ReplaceAllAbsent(s: string, p: string, r: string)
    requires p != [] && !Contains(s, p)
    ensures ReplaceAll(s, p, r) == s
  {
    ReplaceIsJoinSplit(s, p, r, 0);
    assert FindFrom(s, p, 0) == -1;
  }
}
