/** The two-way maps between enumeration numbers and the tags the packer
    stores: the thirty general categories in a fixed order, and the
    scripts in the order their declarations appear in hb-common.h. Each
    source map is one dict with integer and string keys; since the two key
    kinds never collide, the model keeps them as two maps. */
module EnumOrder {
  import opened UcdRecords

  // ---------------------------------------------------------------------
  // General categories
  // ---------------------------------------------------------------------

  const GcTags: seq<string> := [
    "Cc", "Cf", "Cn", "Co", "Cs", "Ll", "Lm", "Lo", "Lt", "Lu",
    "Mc", "Me", "Mn", "Nd", "Nl", "No", "Pc", "Pd", "Pe", "Pf",
    "Pi", "Po", "Ps", "Sc", "Sk", "Sm", "So", "Zl", "Zp", "Zs"]

  /** Tags listed in strictly increasing order are pairwise distinct. */
  predicate TagLess(a: string, b: string) {
    |a| == 2 && |b| == 2 && (a[0] < b[0] || (a[0] == b[0] && a[1] < b[1]))
  }

  lemma GcTagsDistinct()
    ensures |GcTags| == 30
    ensures forall j, k :: 0 <= j < k < |GcTags| ==> GcTags[j] != GcTags[k]
  {
    assert forall k :: 0 <= k < |GcTags| - 1 ==> TagLess(GcTags[k], GcTags[k + 1]);
    forall j, k | 0 <= j < k < |GcTags| ensures TagLess(GcTags[j], GcTags[k]) {
      AscendingTags(GcTags, j, k);
    }
  }

  lemma {:induction false} AscendingTags(s: seq<string>, j: nat, k: nat)
    requires forall i :: 0 <= i < |s| - 1 ==> TagLess(s[i], s[i + 1])
    requires j < k < |s|
    ensures TagLess(s[j], s[k])
  {
    if k > j + 1 {
      AscendingTags(s, j, k - 1);
    }
  }

  /** The first i tags numbered in both directions. */
  ghost predicate Numbered(tags: seq<string>, i: nat, byIndex: map<nat, string>, byTag: map<string, nat>) {
    i <= |tags| &&
    (forall k: nat :: k in byIndex <==> k < i) &&
    (forall k :: 0 <= k < i ==> byIndex[k] == tags[k]) &&
    (forall t :: t in byTag <==> t in tags[..i]) &&
    (forall t :: t in byTag ==> byTag[t] < i && tags[byTag[t]] == t)
  }

  lemma NumberNext(tags: seq<string>, i: nat, byIndex: map<nat, string>, byTag: map<string, nat>)
    requires Numbered(tags, i, byIndex, byTag) && i < |tags|
    ensures Numbered(tags, i + 1, byIndex[i := tags[i]], byTag[tags[i] := i])
  {
    assert tags[..i + 1] == tags[..i] + [tags[i]];
  }

  /** With distinct tags the two directions are inverse to each other. */
  lemma NumberedInverse(tags: seq<string>, byIndex: map<nat, string>, byTag: map<string, nat>)
    requires Numbered(tags, |tags|, byIndex, byTag)
    requires forall j, k :: 0 <= j < k < |tags| ==> tags[j] != tags[k]
    ensures forall t :: t in byTag <==> t in tags
    ensures forall t :: t in byTag ==> byTag[t] in byIndex && byIndex[byTag[t]] == t
    ensures forall i :: i in byIndex ==> byIndex[i] in byTag && byTag[byIndex[i]] == i
  {
    assert tags[..|tags|] == tags;
    forall k | k in byIndex ensures byIndex[k] in byTag && byTag[byIndex[k]] == k {
      var j := byTag[tags[k]];
      assert tags[j] == tags[k];
    }
  }

  /** The loop filling gc_order: both directions of the numbering. */
  method BuildGcOrder() returns (byIndex: map<nat, string>, byTag: map<string, nat>)
    ensures forall i: nat :: i in byIndex <==> i < |GcTags|
    ensures forall i :: 0 <= i < |GcTags| ==> byIndex[i] == GcTags[i]
    ensures forall t :: t in byTag <==> t in GcTags
    ensures forall t :: t in byTag ==> byTag[t] in byIndex && byIndex[byTag[t]] == t
    ensures forall i :: i in byIndex ==> byIndex[i] in byTag && byTag[byIndex[i]] == i
  {
    byIndex, byTag := map[], map[];
    var i := 0;
    while i < |GcTags|
      invariant Numbered(GcTags, i, byIndex, byTag)
    {
      NumberNext(GcTags, i, byIndex, byTag);
      byIndex := byIndex[i := GcTags[i]];
      byTag := byTag[GcTags[i] := i];
      i := i + 1;
    }
    GcTagsDistinct();
    NumberedInverse(GcTags, byIndex, byTag);
  }

  // ---------------------------------------------------------------------
  // Scripts
  // ---------------------------------------------------------------------

  /** What the script regex captures on a matching line: the HB_SCRIPT_
      identifier and the four characters of its HB_TAG. */
  datatype ScriptMatch = ScriptMatch(name: string, c1: char, c2: char, c3: char, c4: char)
  {
    function Tag(): (r: string)
      ensures |r| == 4
    {
      [c1, c2, c3, c4]
    }
  }

  /** The matches of the header's lines, in file order; a line the regex
      does not match is skipped. */
  function Matched(lines: seq<Option<ScriptMatch>>): (r: seq<ScriptMatch>)
    ensures |r| <= |lines|
  {
    if lines == [] then []
    else
      var last := lines[|lines| - 1];
      Matched(lines[..|lines| - 1]) + (if last.Some? then [last.value] else [])
  }

  /** A match is kept exactly when some line produced it. */
  lemma {:induction false} MatchedMembers(lines: seq<Option<ScriptMatch>>, x: ScriptMatch)
    ensures x in Matched(lines) <==> Some(x) in lines
  {
    if lines != [] {
      var init := lines[..|lines| - 1];
      MatchedMembers(init, x);
      assert lines == init + [lines[|lines| - 1]];
    }
  }

  /** sc_array lists the identifiers of m in order, sc_order numbers the
      tags by position, and a tag that appears twice keeps its later
      number. */
  ghost predicate ScTables(m: seq<ScriptMatch>, byIndex: map<nat, string>, byTag: map<string, nat>, names: seq<string>) {
    |names| == |m| &&
    (forall k :: 0 <= k < |m| ==> names[k] == m[k].name) &&
    (forall k: nat :: k in byIndex <==> k < |m|) &&
    (forall k :: 0 <= k < |m| ==> byIndex[k] == m[k].Tag()) &&
    (forall t :: t in byTag <==> exists k :: 0 <= k < |m| && m[k].Tag() == t) &&
    (forall t :: t in byTag ==>
      (byTag[t] < |m| && m[byTag[t]].Tag() == t &&
       forall k :: byTag[t] < k < |m| ==> m[k].Tag() != t))
  }

  /** The loop over the header's lines. */
  method BuildScOrder(lines: seq<Option<ScriptMatch>>)
    returns (byIndex: map<nat, string>, byTag: map<string, nat>, names: seq<string>)
    ensures ScTables(Matched(lines), byIndex, byTag, names)
    ensures forall t :: t in byTag ==> byTag[t] in byIndex && byIndex[byTag[t]] == t
    ensures forall k :: k in byIndex ==> byIndex[k] in byTag && byTag[byIndex[k]] >= k
  {
    byIndex, byTag, names := map[], map[], [];
    var p := 0;
    while p < |lines|
      invariant p <= |lines|
      invariant ScTables(Matched(lines[..p]), byIndex, byTag, names)
    {
      MatchedStep(lines, p);
      var line := lines[p];
      if line.Some? {
        AppendMatch(Matched(lines[..p]), line.value, byIndex, byTag, names);
        var tag := line.value.Tag();
        var i := |names|;
        byTag := byTag[tag := i];
        byIndex := byIndex[i := tag];
        names := names + [line.value.name];
      }
      p := p + 1;
    }
    assert lines[..p] == lines;
    ScTablesInverse(Matched(lines), byIndex, byTag, names);
  }

  /** Scanning one more line appends its match, if any. */
  lemma MatchedStep(lines: seq<Option<ScriptMatch>>, p: nat)
    requires p < |lines|
    ensures Matched(lines[..p + 1]) ==
      Matched(lines[..p]) + (if lines[p].Some? then [lines[p].value] else [])
  {
    assert lines[..p + 1][..p] == lines[..p];
  }

  /** A tag's number maps back to the tag, and a number's tag maps to that
      number or a later one. */
  lemma ScTablesInverse(m: seq<ScriptMatch>, byIndex: map<nat, string>, byTag: map<string, nat>, names: seq<string>)
    requires ScTables(m, byIndex, byTag, names)
    ensures forall t :: t in byTag ==> byTag[t] in byIndex && byIndex[byTag[t]] == t
    ensures forall k :: k in byIndex ==> byIndex[k] in byTag && byTag[byIndex[k]] >= k
  {
    forall k | k in byIndex ensures byIndex[k] in byTag && byTag[byIndex[k]] >= k {
      assert m[k].Tag() == byIndex[k];
    }
  }

  /** One iteration on a matching line keeps the tables in step. */
  lemma AppendMatch(m: seq<ScriptMatch>, x: ScriptMatch, byIndex: map<nat, string>, byTag: map<string, nat>, names: seq<string>)
    requires ScTables(m, byIndex, byTag, names)
    ensures ScTables(m + [x], byIndex[|m| := x.Tag()], byTag[x.Tag() := |m|], names + [x.name])
  {
    var m', byTag' := m + [x], byTag[x.Tag() := |m|];
    AppendMatchTags(m, x, byTag, m', byTag');
    AppendMatchLast(m, x, byTag, m', byTag');
    var byIndex', names' := byIndex[|m| := x.Tag()], names + [x.name];
    assert forall k :: 0 <= k < |m'| ==> names'[k] == m'[k].name;
    assert forall k: nat :: k in byIndex' <==> k < |m'|;
    assert forall k :: 0 <= k < |m'| ==> byIndex'[k] == m'[k].Tag();
  }

  lemma AppendMatchTags(m: seq<ScriptMatch>, x: ScriptMatch, byTag: map<string, nat>,
                        m': seq<ScriptMatch>, byTag': map<string, nat>)
    requires m' == m + [x] && byTag' == byTag[x.Tag() := |m|]
    requires forall t :: t in byTag <==> exists k :: 0 <= k < |m| && m[k].Tag() == t
    ensures forall t :: t in byTag' <==> exists k :: 0 <= k < |m'| && m'[k].Tag() == t
  {
    forall t ensures t in byTag' <==> exists k :: 0 <= k < |m'| && m'[k].Tag() == t {
      if t in byTag && t != x.Tag() {
        var k :| 0 <= k < |m| && m[k].Tag() == t;
        assert m'[k].Tag() == t;
      }
      if t == x.Tag() {
        assert m'[|m|].Tag() == t;
      }
      if exists k :: 0 <= k < |m'| && m'[k].Tag() == t {
        var k :| 0 <= k < |m'| && m'[k].Tag() == t;
        if k < |m| {
          assert m[k].Tag() == t;
        }
      }
    }
  }

  lemma AppendMatchLast(m: seq<ScriptMatch>, x: ScriptMatch, byTag: map<string, nat>,
                        m': seq<ScriptMatch>, byTag': map<string, nat>)
    requires m' == m + [x] && byTag' == byTag[x.Tag() := |m|]
    requires forall t :: t in byTag ==>
      (byTag[t] < |m| && m[byTag[t]].Tag() == t &&
       forall k :: byTag[t] < k < |m| ==> m[k].Tag() != t)
    ensures forall t :: t in byTag' ==>
      (byTag'[t] < |m'| && m'[byTag'[t]].Tag() == t &&
       forall k :: byTag'[t] < k < |m'| ==> m'[k].Tag() != t)
  {
    forall t | t in byTag'
      ensures byTag'[t] < |m'| && m'[byTag'[t]].Tag() == t
      ensures forall k :: byTag'[t] < k < |m'| ==> m'[k].Tag() != t
    {
      if t != x.Tag() {
        forall k | byTag[t] < k < |m'| ensures m'[k].Tag() != t {
          if k < |m| {
            assert m'[k] == m[k];
          }
        }
      }
    }
  }
}
