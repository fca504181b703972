/** The SLOPPY profile's fill of unassigned entries: a forward pass copies
    each default entry from its predecessor, then a backward pass copies
    each entry still default from its successor, neither pass crossing a
    128-entry block boundary. */
module BlockFill {

  const BlockSize: nat := 128

  /** The first index of i's block. */
  function BlockStart(i: nat): nat {
    i - i % BlockSize
  }

  /** One past the last index of i's block in an array of length n. */
  function BlockEnd(i: nat, n: nat): nat {
    if BlockStart(i) + BlockSize < n then BlockStart(i) + BlockSize else n
  }

  /** Indices from a block's start up to 127 past it share that block. */
  lemma SameBlock(i: nat, k: nat)
    requires BlockStart(i) <= k < BlockStart(i) + BlockSize
    ensures BlockStart(k) == BlockStart(i)
    ensures k % BlockSize == k - BlockStart(i)
  {
  }

  // ---------------------------------------------------------------------
  // The two passes as functions of the array before them
  // ---------------------------------------------------------------------

  /** Entry i after the forward pass: a default entry that is not its
      block's first takes the already-filled value of its predecessor. */
  function Fwd<T(==)>(s: seq<T>, d: T, i: nat): T
    requires i < |s|
  {
    if i % BlockSize != 0 && s[i] == d then Fwd(s, d, i - 1) else s[i]
  }

  function ForwardFilled<T(==)>(s: seq<T>, d: T): (r: seq<T>)
    ensures |r| == |s|
  {
    seq(|s|, i requires 0 <= i < |s| => Fwd(s, d, i))
  }

  /** Entry i after the backward pass: a default entry that is neither the
      array's last nor its block's last takes the already-filled value of
      its successor. */
  function Bwd<T(==)>(f: seq<T>, d: T, i: nat): T
    requires i < |f|
    decreases |f| - i
  {
    if i + 1 < |f| && (i + 1) % BlockSize != 0 && f[i] == d then Bwd(f, d, i + 1) else f[i]
  }

  function BackwardFilled<T(==)>(f: seq<T>, d: T): (r: seq<T>)
    ensures |r| == |f|
  {
    seq(|f|, i requires 0 <= i < |f| => Bwd(f, d, i))
  }

  /** The forward pass followed by the backward pass. */
  function Filled<T(==)>(s: seq<T>, d: T): (r: seq<T>)
    ensures |r| == |s|
  {
    BackwardFilled(ForwardFilled(s, d), d)
  }

  // ---------------------------------------------------------------------
  // The passes in place
  // ---------------------------------------------------------------------

  /** `for i in range(len(a))`: copy a default entry from its predecessor
      unless it starts a block. */
  method ForwardPass<T(==)>(a: array<T>, d: T)
    modifies a
    ensures a[..] == ForwardFilled(old(a[..]), d)
  {
    ghost var s := a[..];
    var i := 0;
    while i < a.Length
      invariant 0 <= i <= a.Length
      invariant forall k :: 0 <= k < i ==> a[k] == Fwd(s, d, k)
      invariant forall k :: i <= k < a.Length ==> a[k] == s[k]
    {
      if i % BlockSize != 0 && a[i] == d {
        a[i] := a[i - 1];
      }
      i := i + 1;
    }
  }

  /** `for i in range(len(a) - 2, -1, -1)`: copy a default entry from its
      successor unless it ends a block. */
  method BackwardPass<T(==)>(a: array<T>, d: T)
    modifies a
    ensures a[..] == BackwardFilled(old(a[..]), d)
  {
    ghost var f := a[..];
    var i: int := a.Length - 2;
    while i >= 0
      invariant i <= a.Length - 2
      invariant i >= -1 || a.Length == 0
      invariant forall k :: 0 <= k && i < k < a.Length ==> a[k] == Bwd(f, d, k)
      invariant forall k :: 0 <= k <= i ==> a[k] == f[k]
    {
      if (i + 1) % BlockSize != 0 && a[i] == d {
        a[i] := a[i + 1];
      }
      i := i - 1;
    }
  }

  /** Both passes over one stream. */
  method FillBlocks<T(==)>(a: array<T>, d: T)
    modifies a
    ensures a[..] == Filled(old(a[..]), d)
  {
    ForwardPass(a, d);
    BackwardPass(a, d);
  }

  // ---------------------------------------------------------------------
  // What each pass computes
  // ---------------------------------------------------------------------

  /** After the forward pass an entry holds the nearest non-default entry
      at or before it in its block. */
  lemma {:induction false} FwdNearest<T>(s: seq<T>, d: T, i: nat, j: nat)
    requires BlockStart(i) <= j <= i < |s| && s[j] != d
    requires forall k :: j < k <= i ==> s[k] == d
    ensures Fwd(s, d, i) == s[j]
    decreases i
  {
    if i > j {
      SameBlock(i, i - 1);
      FwdNearest(s, d, i - 1, j);
    }
  }

  /** ... and stays default when there is none. */
  lemma {:induction false} FwdAllDefault<T>(s: seq<T>, d: T, i: nat)
    requires i < |s|
    requires forall k :: BlockStart(i) <= k <= i ==> s[k] == d
    ensures Fwd(s, d, i) == d
    decreases i
  {
    if i % BlockSize != 0 {
      SameBlock(i, i - 1);
      FwdAllDefault(s, d, i - 1);
    }
  }

  /** After the backward pass a default entry holds the nearest non-default
      entry at or after it in its block. */
  lemma {:induction false} BwdNearest<T>(f: seq<T>, d: T, i: nat, j: nat)
    requires i <= j < BlockEnd(i, |f|) && f[j] != d
    requires forall k :: i <= k < j ==> f[k] == d
    ensures Bwd(f, d, i) == f[j]
    decreases j - i
  {
    if i < j {
      SameBlock(i, i + 1);
      BwdNearest(f, d, i + 1, j);
    }
  }

  /** ... and stays default when there is none. */
  lemma {:induction false} BwdAllDefault<T>(f: seq<T>, d: T, i: nat)
    requires i < |f|
    requires forall k :: i <= k < BlockEnd(i, |f|) ==> f[k] == d
    ensures Bwd(f, d, i) == d
    decreases |f| - i
  {
    SameBlock(i, i);
    if i + 1 < |f| && (i + 1) % BlockSize != 0 {
      SameBlock(i, i + 1);
      BwdAllDefault(f, d, i + 1);
    }
  }

  // ---------------------------------------------------------------------
  // What the fill computes
  // ---------------------------------------------------------------------

  /** Only default entries change. */
  lemma FilledKeepsNonDefault<T>(s: seq<T>, d: T, i: nat)
    requires i < |s| && s[i] != d
    ensures Filled(s, d)[i] == s[i]
  {
    var f := ForwardFilled(s, d);
    SameBlock(i, i);
    FwdNearest(s, d, i, i);
    BwdNearest(f, d, i, i);
  }

  /** A default entry with a non-default entry before it in its block takes
      the nearest such. */
  lemma FilledFromBefore<T>(s: seq<T>, d: T, i: nat, j: nat)
    requires BlockStart(i) <= j < i < |s| && s[j] != d
    requires forall k :: j < k <= i ==> s[k] == d
    ensures Filled(s, d)[i] == s[j]
  {
    var f := ForwardFilled(s, d);
    SameBlock(i, i);
    FwdNearest(s, d, i, j);
    BwdNearest(f, d, i, i);
  }

  /** A default entry with only default entries before it in its block
      takes the nearest non-default entry after it; this is how a block's
      first entry gets filled. */
  lemma FilledFromAfter<T>(s: seq<T>, d: T, i: nat, j: nat)
    requires i < j < BlockEnd(i, |s|) && s[j] != d
    requires forall k :: BlockStart(i) <= k < j ==> s[k] == d
    ensures Filled(s, d)[i] == s[j]
  {
    var f := ForwardFilled(s, d);
    forall k | i <= k < j ensures f[k] == d {
      SameBlock(i, k);
      FwdAllDefault(s, d, k);
    }
    SameBlock(i, j);
    FwdNearest(s, d, j, j);
    BwdNearest(f, d, i, j);
  }

  /** An entry stays default exactly when its whole block is default. */
  lemma FilledDefaultIff<T>(s: seq<T>, d: T, i: nat)
    requires i < |s|
    ensures Filled(s, d)[i] == d <==> forall k :: BlockStart(i) <= k < BlockEnd(i, |s|) ==> s[k] == d
  {
    SameBlock(i, i);
    if forall k :: BlockStart(i) <= k < BlockEnd(i, |s|) ==> s[k] == d {
      var f := ForwardFilled(s, d);
      forall k | i <= k < BlockEnd(i, |s|) ensures f[k] == d {
        SameBlock(i, k);
        FwdAllDefault(s, d, k);
      }
      BwdAllDefault(f, d, i);
    } else {
      var j := FilledSource(s, d, i);
    }
  }

  /** No value crosses a block boundary: every entry after the fill is
      some entry of its own block before it, and a non-default one when
      the block has any. */
  lemma FilledStaysInBlock<T>(s: seq<T>, d: T, i: nat) returns (j: nat)
    requires i < |s|
    ensures BlockStart(i) <= j < BlockEnd(i, |s|) && Filled(s, d)[i] == s[j]
  {
    SameBlock(i, i);
    if forall k :: BlockStart(i) <= k < BlockEnd(i, |s|) ==> s[k] == d {
      FilledDefaultIff(s, d, i);
      j := i;
    } else {
      j := FilledSource(s, d, i);
    }
  }

  /** The entry a fill copies from, when the block has a non-default one. */
  lemma FilledSource<T>(s: seq<T>, d: T, i: nat) returns (j: nat)
    requires i < |s|
    requires exists k :: BlockStart(i) <= k < BlockEnd(i, |s|) && s[k] != d
    ensures BlockStart(i) <= j < BlockEnd(i, |s|) && s[j] != d && Filled(s, d)[i] == s[j]
  {
    SameBlock(i, i);
    if exists k :: BlockStart(i) <= k <= i && s[k] != d {
      j := LastBefore(s, d, BlockStart(i), i);
      if j == i {
        FilledKeepsNonDefault(s, d, i);
      } else {
        FilledFromBefore(s, d, i, j);
      }
    } else {
      j := FirstAfter(s, d, i + 1, BlockEnd(i, |s|));
      FilledFromAfter(s, d, i, j);
    }
  }

  lemma {:induction false} LastBefore<T>(s: seq<T>, d: T, lo: nat, i: nat) returns (j: nat)
    requires lo <= i < |s|
    requires exists k :: lo <= k <= i && s[k] != d
    ensures lo <= j <= i && s[j] != d
    ensures forall k :: j < k <= i ==> s[k] == d
    decreases i
  {
    if s[i] != d {
      j := i;
    } else {
      var w :| lo <= w <= i && s[w] != d;
      assert w < i;
      j := LastBefore(s, d, lo, i - 1);
    }
  }

  lemma {:induction false} FirstAfter<T>(s: seq<T>, d: T, lo: nat, hi: nat) returns (j: nat)
    requires lo <= hi <= |s|
    requires exists k :: lo <= k < hi && s[k] != d
    ensures lo <= j < hi && s[j] != d
    ensures forall k :: lo <= k < j ==> s[k] == d
    decreases hi - lo
  {
    if s[lo] != d {
      j := lo;
    } else {
      var w :| lo <= w < hi && s[w] != d;
      assert w > lo;
      j := FirstAfter(s, d, lo + 1, hi);
    }
  }

  /** An unassigned first entry of a block takes the next assigned value. */
  lemma FirstEntryFilled()
    ensures Filled(["Cn", "Lu"], "Cn") == ["Lu", "Lu"]
  {
    var s := ["Cn", "Lu"];
    FilledFromAfter(s, "Cn", 0, 1);
    FilledKeepsNonDefault(s, "Cn", 1);
  }
}
