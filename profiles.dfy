/** The three table profiles the generator writes one after another, the
    preprocessor conditions that pick one of them when HarfBuzz is
    compiled, and the order in which the SLOPPY fill mutates the general
    category and script streams. */
module Profiles {
  import opened UcdRecords
  import opened BlockFill

  datatype Profile = Default | Compact | Sloppy

  /** The order the profiles are written in. */
  const Steps: seq<Profile> := [Default, Compact, Sloppy]

  /** The packer's compression level for each profile. */
  function CompressionLevel(p: Profile): (r: nat)
    ensures r == 5 <==> p == Default
    ensures r == 9 <==> p != Default
  {
    match p
    case Default => 5
    case Compact => 9
    case Sloppy => 9
  }

  /** The condition opening each profile's section: `#ifndef
      HB_OPTIMIZE_SIZE`, then `#elif !defined(HB_NO_UCD_UNASSIGNED)`, then
      `#else`. */
  predicate Guard(p: Profile, optimizeSize: bool, noUnassigned: bool) {
    match p
    case Default => !optimizeSize
    case Compact => !noUnassigned
    case Sloppy => true
  }

  /** An #if / #elif / #else chain compiles the first section whose
      condition holds. */
  function FirstActive(steps: seq<Profile>, optimizeSize: bool, noUnassigned: bool): (r: Option<Profile>)
    ensures r.Some? ==>
      r.value in steps && Guard(r.value, optimizeSize, noUnassigned) &&
      exists k :: 0 <= k < |steps| && steps[k] == r.value &&
        forall j :: 0 <= j < k ==> !Guard(steps[j], optimizeSize, noUnassigned)
    ensures r.None? <==> forall k :: 0 <= k < |steps| ==> !Guard(steps[k], optimizeSize, noUnassigned)
  {
    if steps == [] then None
    else if Guard(steps[0], optimizeSize, noUnassigned) then Some(steps[0])
    else
      var r := FirstActive(steps[1..], optimizeSize, noUnassigned);
      if r.Some? then
        var k :| 0 <= k < |steps[1..]| && steps[1..][k] == r.value &&
          forall j :: 0 <= j < k ==> !Guard(steps[1..][j], optimizeSize, noUnassigned);
        assert steps[k + 1] == r.value;
        r
      else r
  }

  /** The compiled profile: DEFAULT unless HB_OPTIMIZE_SIZE is defined,
      otherwise COMPACT unless HB_NO_UCD_UNASSIGNED is defined, otherwise
      SLOPPY. */
  lemma ActiveProfile(optimizeSize: bool, noUnassigned: bool)
    ensures FirstActive(Steps, optimizeSize, noUnassigned) ==
      Some(if !optimizeSize then Default else if !noUnassigned then Compact else Sloppy)
  {
    var r := FirstActive(Steps, optimizeSize, noUnassigned);
    assert Guard(Steps[2], optimizeSize, noUnassigned);
    var k :| 0 <= k < |Steps| && Steps[k] == r.value &&
      forall j :: 0 <= j < k ==> !Guard(Steps[j], optimizeSize, noUnassigned);
    assert k == 0 || !Guard(Steps[0], optimizeSize, noUnassigned);
  }

  /** The data handed to the packer for one profile: the two streams the
      fill can change. */
  datatype Pack = Pack(profile: Profile, compression: nat, gc: seq<string>, sc: seq<string>)

  /** The loop over the three profiles. The general category and script
      lists are shared with the datasets, and only the SLOPPY step, the
      last, fills them in place, so DEFAULT and COMPACT pack the data as
      read and SLOPPY packs it filled. */
  method PackAllProfiles(gc: array<string>, sc: array<string>) returns (packs: seq<Pack>)
    requires gc != sc
    modifies gc, sc
    ensures |packs| == |Steps|
    ensures packs[0] == Pack(Default, 5, old(gc[..]), old(sc[..]))
    ensures packs[1] == Pack(Compact, 9, old(gc[..]), old(sc[..]))
    ensures packs[2] == Pack(Sloppy, 9, Filled(old(gc[..]), "Cn"), Filled(old(sc[..]), "Zzzz"))
    ensures gc[..] == Filled(old(gc[..]), "Cn") && sc[..] == Filled(old(sc[..]), "Zzzz")
  {
    packs := [];
    var n := 0;
    while n < |Steps|
      invariant n <= |Steps| && |packs| == n
      invariant forall k :: 0 <= k < n && Steps[k] != Sloppy ==>
        packs[k] == Pack(Steps[k], CompressionLevel(Steps[k]), old(gc[..]), old(sc[..]))
      invariant forall k :: 0 <= k < n && Steps[k] == Sloppy ==>
        packs[k] == Pack(Sloppy, 9, Filled(old(gc[..]), "Cn"), Filled(old(sc[..]), "Zzzz"))
      invariant n < 3 ==> gc[..] == old(gc[..]) && sc[..] == old(sc[..])
      invariant n == 3 ==> gc[..] == Filled(old(gc[..]), "Cn") && sc[..] == Filled(old(sc[..]), "Zzzz")
    {
      var step := Steps[n];
      var compression := CompressionLevel(step);
      if step == Sloppy {
        FillBlocks(gc, "Cn");
        FillBlocks(sc, "Zzzz");
      }
      packs := packs + [Pack(step, compression, gc[..], sc[..])];
      n := n + 1;
    }
  }
}
