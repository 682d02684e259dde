/** Subsequences described by the positions they keep. Both `Array.prototype.filter`
    and a global regular-expression match keep some positions of their input, in
    order, and drop the rest; `SelectedAt` says exactly which positions. */
module Sequences {

  /** `r` is made of the elements of `s` at positions `idx`, which increase strictly. */
  ghost predicate SelectedAt<T>(r: seq<T>, s: seq<T>, idx: seq<int>)
  {
    && |idx| == |r|
    && (forall k :: 0 <= k < |idx| ==> 0 <= idx[k] < |s| && r[k] == s[idx[k]])
    && (forall k, l :: 0 <= k < l < |idx| ==> idx[k] < idx[l])
  }

  /** The same selection seen from `[x] + t`: every position moves up by one. */
  lemma SelectedAtShift<T>(r: seq<T>, t: seq<T>, idx: seq<int>, x: T) returns (shifted: seq<int>)
    requires SelectedAt(r, t, idx)
    ensures SelectedAt(r, [x] + t, shifted)
    ensures |shifted| == |idx| && forall k :: 0 <= k < |idx| ==> shifted[k] == idx[k] + 1
  {
    shifted := seq(|idx|, k requires 0 <= k < |idx| => idx[k] + 1);
    assert forall k :: 0 <= k < |idx| ==> ([x] + t)[idx[k] + 1] == t[idx[k]];
  }

  /** A position is in the shifted selection exactly when the one below it was
      in the original. */
  lemma ShiftedMembership(idx: seq<int>, shifted: seq<int>, i: int)
    requires |shifted| == |idx| && forall k :: 0 <= k < |idx| ==> shifted[k] == idx[k] + 1
    ensures i in shifted <==> i - 1 in idx
  {
    if i in shifted {
      var k :| 0 <= k < |shifted| && shifted[k] == i;
      assert idx[k] == i - 1;
    }
    if i - 1 in idx {
      var k :| 0 <= k < |idx| && idx[k] == i - 1;
      assert shifted[k] == i;
    }
  }

  /** Extending a selection over `t` to one over `[x] + t`, keeping `x` or not.
      Positions shift up by one; position 0 is kept exactly when `keep` holds. */
  lemma SelectedAtPrepend<T>(r: seq<T>, t: seq<T>, idx: seq<int>, x: T, keep: bool)
    returns (idx': seq<int>)
    requires SelectedAt(r, t, idx)
    ensures SelectedAt((if keep then [x] else []) + r, [x] + t, idx')
    ensures forall i :: 0 <= i <= |t| ==> (i in idx' <==> if i == 0 then keep else i - 1 in idx)
  {
    var shifted := SelectedAtShift(r, t, idx, x);
    if keep {
      idx' := [0] + shifted;
      assert forall k :: 1 <= k < |idx'| ==> idx'[k] == shifted[k - 1] && ([x] + r)[k] == r[k - 1];
    } else {
      idx' := shifted;
    }
    forall i | 0 <= i <= |t|
      ensures i in idx' <==> if i == 0 then keep else i - 1 in idx
    {
      ShiftedMembership(idx, shifted, i);
    }
  }
}
