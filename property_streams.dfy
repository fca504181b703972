/** The four per-codepoint property streams the packer receives: general
    category, combining class and script copied from each record, and the
    mirroring glyph stored as a signed distance from the record's own
    codepoint. */
module PropertyStreams {
  import opened UcdRecords

  function GcStream(ucd: seq<Row>): (r: seq<string>)
    ensures |r| == |ucd|
  {
    seq(|ucd|, i requires 0 <= i < |ucd| => ucd[i].gc)
  }

  function CccStream(ucd: seq<Row>): (r: seq<nat>)
    ensures |r| == |ucd|
  {
    seq(|ucd|, i requires 0 <= i < |ucd| => ucd[i].ccc)
  }

  function ScStream(ucd: seq<Row>): (r: seq<string>)
    ensures |r| == |ucd|
  {
    seq(|ucd|, i requires 0 <= i < |ucd| => ucd[i].sc)
  }

  /** The mirroring delta of record i: mirror - i, or 0 when the field is
      empty. A codepoint plus its delta is its mirror, or itself when it
      has none, which is how a reader of the stream finds the mirror. */
  function BmgStream(ucd: seq<Row>): (r: seq<int>)
    ensures |r| == |ucd|
    ensures forall i :: 0 <= i < |ucd| ==>
      i + r[i] == (if ucd[i].bmg.Some? then ucd[i].bmg.value else i)
  {
    seq(|ucd|, i requires 0 <= i < |ucd| => if ucd[i].bmg.Some? then ucd[i].bmg.value - i else 0)
  }

  /** What a reader of the four streams learns about record i: its general
      category, combining class and script exactly, and its mirror exactly
      unless the record mirrors to itself, which the stream stores the
      same way as no mirror. */
  lemma StreamsRecoverRow(ucd: seq<Row>, i: nat)
    requires i < |ucd|
    ensures GcStream(ucd)[i] == ucd[i].gc
    ensures CccStream(ucd)[i] == ucd[i].ccc
    ensures ScStream(ucd)[i] == ucd[i].sc
    ensures BmgStream(ucd)[i] != 0 ==> ucd[i].bmg == Some(i + BmgStream(ucd)[i])
    ensures BmgStream(ucd)[i] == 0 <==> ucd[i].bmg.None? || ucd[i].bmg == Some(i)
  {
  }

  /** A record that mirrors to itself and one with no mirror give the same
      stream, so the zero delta does not mean "no mirror" on its own. */
  lemma SelfMirrorIndistinct()
    ensures BmgStream([Row("Sm", 0, Some(0), "Zyyy", "", None, false)]) ==
            BmgStream([Row("Sm", 0, None, "Zyyy", "", None, false)])
  {
    var a := [Row("Sm", 0, Some(0), "Zyyy", "", None, false)];
    var b := [Row("Sm", 0, None, "Zyyy", "", None, false)];
    assert BmgStream(a)[0] == 0 && BmgStream(b)[0] == 0;
  }
}
