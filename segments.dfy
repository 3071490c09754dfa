/** JavaScript `name.split('_')` and `parts.join('_')`, the two string
    operations the intent resolver uses to drop the last `_`-segment of a
    name. */
module Segments {

  const Sep: char := '_'

  /** `s.split('_')`: always at least one segment, none containing `_`. */
  function Split(s: string): (parts: seq<string>)
    ensures |parts| >= 1
    ensures forall i :: 0 <= i < |parts| ==> Sep !in parts[i]
    ensures |parts| == Count(s) + 1
  {
    if |s| == 0 then [""]
    else
      var rest := Split(s[1..]);
      if s[0] == Sep then [""] + rest
      else [[s[0]] + rest[0]] + rest[1..]
  }

  /** Number of `_` characters in `s`. */
  function Count(s: string): nat {
    if |s| == 0 then 0
    else (if s[0] == Sep then 1 else 0) + Count(s[1..])
  }

  /** `parts.join('_')` of a non-empty array. */
  function Join(parts: seq<string>): string
    requires |parts| >= 1
  {
    if |parts| == 1 then parts[0]
    else parts[0] + [Sep] + Join(parts[1..])
  }

  predicate SepFree(parts: seq<string>) {
    forall i :: 0 <= i < |parts| ==> Sep !in parts[i]
  }

  /** Joining the segments gives back the string that was split. */
  lemma {:induction false} JoinSplit(s: string)
    ensures Join(Split(s)) == s
  {
    if |s| > 0 {
      var rest := Split(s[1..]);
      JoinSplit(s[1..]);
      if s[0] == Sep {
        assert Split(s) == [""] + rest;
        assert ([""] + rest)[1..] == rest;
        assert s == [s[0]] + s[1..];
      } else {
        var parts := [[s[0]] + rest[0]] + rest[1..];
        assert Split(s) == parts;
        if |rest| == 1 {
          assert Join(parts) == [s[0]] + rest[0];
        } else {
          assert parts[1..] == rest[1..];
          assert Join(rest) == rest[0] + [Sep] + Join(rest[1..]);
          assert Join(parts) == [s[0]] + rest[0] + [Sep] + Join(rest[1..]);
        }
        assert s == [s[0]] + s[1..];
      }
    }
  }

  /** A string without `_` is a single segment. */
  lemma {:induction false} SplitSepFree(p: string)
    requires Sep !in p
    ensures Split(p) == [p]
  {
    if |p| > 0 {
      assert Sep !in p[1..] by { assert forall i :: 0 <= i < |p[1..]| ==> p[1..][i] == p[i + 1]; }
      SplitSepFree(p[1..]);
      assert p == [p[0]] + p[1..];
    }
  }

  /** Splitting `p + "_" + t` with `p` free of `_` yields `p` and the segments of `t`. */
  lemma {:induction false} SplitCons(p: string, t: string)
    requires Sep !in p
    ensures Split(p + [Sep] + t) == [p] + Split(t)
  {
    var s := p + [Sep] + t;
    if |p| == 0 {
      assert s == [Sep] + t;
      assert s[1..] == t;
    } else {
      assert Sep !in p[1..] by { assert forall i :: 0 <= i < |p[1..]| ==> p[1..][i] == p[i + 1]; }
      SplitCons(p[1..], t);
      assert s[1..] == p[1..] + [Sep] + t;
      assert s[0] == p[0] && s[0] != Sep;
      var rest := Split(s[1..]);
      assert rest == [p[1..]] + Split(t);
      assert [s[0]] + rest[0] == p;
      assert rest[1..] == Split(t);
    }
  }

  /** Splitting the join of `_`-free segments gives the segments back. */
  lemma {:induction false} SplitJoin(parts: seq<string>)
    requires |parts| >= 1 && SepFree(parts)
    ensures Split(Join(parts)) == parts
  {
    if |parts| == 1 {
      SplitSepFree(parts[0]);
    } else {
      assert SepFree(parts[1..]) by {
        assert forall i :: 0 <= i < |parts[1..]| ==> parts[1..][i] == parts[i + 1];
      }
      SplitJoin(parts[1..]);
      assert Sep !in parts[0];
      SplitCons(parts[0], Join(parts[1..]));
      assert parts == [parts[0]] + parts[1..];
    }
  }

  /** The join of the first `j` segments is followed by `_` and the join of the rest. */
  lemma {:induction false} JoinSplitAt(parts: seq<string>, j: nat)
    requires 1 <= j < |parts|
    ensures Join(parts) == Join(parts[..j]) + [Sep] + Join(parts[j..])
  {
    if j > 1 {
      JoinSplitAt(parts[1..], j - 1);
      assert parts[1..][..j - 1] == parts[..j][1..];
      assert parts[1..][j - 1..] == parts[j..];
    } else {
      assert parts[..1] == [parts[0]];
      assert parts[1..] == parts[j..];
    }
  }
}
