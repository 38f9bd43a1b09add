/**
 * Boolean-mask selection, the way pandas selects the rows or columns of a table
 * (`s[mask]`, `df.loc[mask, :]`, `df[names]`): the positions where the mask is set,
 * in their original order.
 */
module Selection {

  predicate Increasing(idx: seq<nat>)
  {
    forall i, j :: 0 <= i < j < |idx| ==> idx[i] < idx[j]
  }

  predicate Distinct<T(==)>(s: seq<T>)
  {
    forall i, j :: 0 <= i < j < |s| ==> s[i] != s[j]
  }

  /** The positions at which `mask` is set, ascending. */
  function Where(mask: seq<bool>): (r: seq<nat>)
    ensures Increasing(r)
    ensures forall k :: 0 <= k < |r| ==> r[k] < |mask| && mask[r[k]]
    ensures forall j :: 0 <= j < |mask| && mask[j] ==> j in r
    decreases |mask|
  {
    if mask == [] then []
    else
      var w := Where(mask[..|mask| - 1]);
      if mask[|mask| - 1] then w + [|mask| - 1] else w
  }

  /** Extending a mask by one entry extends its positions by at most that entry. */
  lemma WhereSnoc(mask: seq<bool>, i: nat)
    requires i < |mask|
    ensures Where(mask[..i + 1]) == Where(mask[..i]) + (if mask[i] then [i] else [])
  {
    assert mask[..i + 1][..i] == mask[..i];
  }

  /** The elements of `s` at the positions `idx`, in that order. */
  function Pick<T>(s: seq<T>, idx: seq<nat>): (r: seq<T>)
    requires forall k :: 0 <= k < |idx| ==> idx[k] < |s|
    ensures |r| == |idx|
  {
    seq(|idx|, k requires 0 <= k < |idx| => s[idx[k]])
  }

  /** The elements of `s` whose mask entry is set, in their original order. */
  function Keep<T>(s: seq<T>, mask: seq<bool>): (r: seq<T>)
    requires |mask| == |s|
    ensures |r| == |Where(mask)|
    ensures forall k :: 0 <= k < |r| ==> r[k] == s[Where(mask)[k]]
  {
    Pick(s, Where(mask))
  }

  /** An element survives `Keep` exactly when some position holding it is selected. */
  lemma KeepMembers<T>(s: seq<T>, mask: seq<bool>, x: T)
    requires |mask| == |s|
    ensures x in Keep(s, mask) <==> exists j :: 0 <= j < |s| && mask[j] && s[j] == x
  {
    var w := Where(mask);
    if x in Keep(s, mask) {
      var k :| 0 <= k < |w| && Keep(s, mask)[k] == x;
      assert mask[w[k]] && s[w[k]] == x;
    }
    if j :| 0 <= j < |s| && mask[j] && s[j] == x {
      var k :| 0 <= k < |w| && w[k] == j;
      assert Keep(s, mask)[k] == x;
    }
  }

  /** Selecting from a sequence without repetitions gives one without repetitions. */
  lemma KeepDistinct<T>(s: seq<T>, mask: seq<bool>)
    requires |mask| == |s| && Distinct(s)
    ensures Distinct(Keep(s, mask))
  {
    var w := Where(mask);
    forall i, j | 0 <= i < j < |w|
      ensures Keep(s, mask)[i] != Keep(s, mask)[j]
    {
      assert w[i] < w[j];
    }
  }
}
