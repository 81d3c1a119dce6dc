/** Sequence helpers: dropping the absent entries of a sequence of options, and the maximum of counts. */
module Seqs {
  import opened Wrappers

  /** The present values of `opts`, in order. */
  function Flatten<T>(opts: seq<Option<T>>): (r: seq<T>)
    ensures |r| <= |opts|
  {
    if |opts| == 0 then []
    else
      var init := opts[..|opts| - 1];
      var last := opts[|opts| - 1];
      Flatten(init) + if last.Some? then [last.value] else []
  }

  /** Flattening one more entry appends its value, if it has one. */
  lemma FlattenSnoc<T>(opts: seq<Option<T>>, o: Option<T>)
    ensures Flatten(opts + [o]) == Flatten(opts) + if o.Some? then [o.value] else []
  {
    assert (opts + [o])[..|opts|] == opts;
  }

  /** Flattening one more entry of a prefix appends that entry's value, if it has one. */
  lemma FlattenPrefixStep<T>(opts: seq<Option<T>>, i: nat)
    requires i < |opts|
    ensures Flatten(opts[..i + 1]) == Flatten(opts[..i]) + if opts[i].Some? then [opts[i].value] else []
  {
    assert opts[..i + 1] == opts[..i] + [opts[i]];
    FlattenSnoc(opts[..i], opts[i]);
  }

  /** Two present entries flatten to their two values. */
  lemma FlattenTwo<T>(opts: seq<Option<T>>)
    requires |opts| == 2 && opts[0].Some? && opts[1].Some?
    ensures Flatten(opts) == [opts[0].value, opts[1].value]
  {
    FlattenPrefixStep(opts, 0);
    FlattenPrefixStep(opts, 1);
    assert opts[..2] == opts;
    assert opts[..0] == [];
  }

  /** The indices of the present entries, in increasing order. */
  function PresentIndices<T>(opts: seq<Option<T>>): (r: seq<nat>)
    ensures forall j :: 0 <= j < |r| ==> r[j] < |opts|
  {
    if |opts| == 0 then []
    else
      var n := |opts| - 1;
      PresentIndices(opts[..n]) + if opts[n].Some? then [n] else []
  }

  predicate Increasing(s: seq<nat>) {
    forall j, l :: 0 <= j < l < |s| ==> s[j] < s[l]
  }

  /** The present indices are strictly increasing, and an index is listed exactly when its entry is present. */
  lemma {:induction false} PresentIndicesSpec<T>(opts: seq<Option<T>>)
    ensures Increasing(PresentIndices(opts))
    ensures forall i :: i in PresentIndices(opts) <==> 0 <= i < |opts| && opts[i].Some?
  {
    if |opts| > 0 {
      var n := |opts| - 1;
      PresentIndicesSpec(opts[..n]);
      assert forall i :: 0 <= i < n ==> opts[..n][i] == opts[i];
      var r0 := PresentIndices(opts[..n]);
      var r := PresentIndices(opts);
      assert r == r0 + if opts[n].Some? then [n] else [];
      assert forall j :: 0 <= j < |r0| ==> r[j] == r0[j] < n;
      assert forall j, l :: 0 <= j < l < |r| ==> r[j] < r[l] by {
        forall j, l | 0 <= j < l < |r|
          ensures r[j] < r[l]
        {
          if l < |r0| {
            assert r0[j] < r0[l];
          }
        }
      }
    }
  }

  /** Value `j` of the flattening is the entry at the `j`-th present index. */
  lemma {:induction false} FlattenAligned<T>(opts: seq<Option<T>>)
    ensures |Flatten(opts)| == |PresentIndices(opts)|
    ensures forall j :: 0 <= j < |Flatten(opts)| ==>
      opts[PresentIndices(opts)[j]] == Some(Flatten(opts)[j])
  {
    if |opts| > 0 {
      var n := |opts| - 1;
      FlattenAligned(opts[..n]);
      assert forall i :: 0 <= i < n ==> opts[..n][i] == opts[i];
    }
  }

  /** A value is in the flattening exactly when some entry holds it. */
  lemma {:induction false} FlattenMembers<T>(opts: seq<Option<T>>, t: T)
    ensures t in Flatten(opts) <==> exists i :: 0 <= i < |opts| && opts[i] == Some(t)
  {
    if |opts| > 0 {
      var n := |opts| - 1;
      FlattenMembers(opts[..n], t);
      if exists i :: 0 <= i < n && opts[..n][i] == Some(t) {
        var i :| 0 <= i < n && opts[..n][i] == Some(t);
        assert opts[i] == Some(t);
      }
      if exists i :: 0 <= i < |opts| && opts[i] == Some(t) {
        var i :| 0 <= i < |opts| && opts[i] == Some(t);
        if i < n {
          assert opts[..n][i] == Some(t);
        }
      }
    }
  }

  /** The largest of the counts, 0 for none. */
  function MaxOf(counts: seq<nat>): (m: nat)
    ensures forall k :: 0 <= k < |counts| ==> counts[k] <= m
    ensures |counts| > 0 ==> m in counts
  {
    if |counts| == 0 then 0
    else
      var rest := MaxOf(counts[1..]);
      assert forall k :: 1 <= k < |counts| ==> counts[k] == counts[1..][k - 1];
      if counts[0] >= rest then counts[0] else rest
  }
}
