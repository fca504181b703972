/** The canonical decomposition encoder: which records carry a
    decomposition, the singleton table split by plane, the sorted pair
    table split into narrow and wide words, and the combined index that
    the per-codepoint `dm` stream stores. */
module Decomposition {
  import opened UcdRecords
  import opened Sorting
  import opened Bits

  // ---------------------------------------------------------------------
  // dm and ce
  // ---------------------------------------------------------------------

  const HangulSBase: nat := 0xAC00
  const HangulSCount: nat := 11172

  predicate IsHangulSyllable(i: nat) {
    HangulSBase <= i < HangulSBase + HangulSCount
  }

  /** Record i gets an entry in dm: its mapping is not "#", its type is
      canonical, and it is not a precomposed Hangul syllable. */
  predicate InDm(ucd: seq<Row>, i: nat)
    requires i < |ucd|
  {
    ucd[i].dm.Some? && ucd[i].dt == "can" && !IsHangulSyllable(i)
  }

  /** dm: codepoint to its canonical decomposition mapping. */
  function Dm(ucd: seq<Row>): map<nat, seq<nat>> {
    map i: nat | i < |ucd| && InDm(ucd, i) :: ucd[i].dm.value
  }

  /** ce: the codepoints that are composition exclusions. */
  function Ce(ucd: seq<Row>): set<nat> {
    set i: nat | i < |ucd| && ucd[i].compEx
  }

  /** dm.items() in insertion order, i.e. by ascending codepoint. */
  datatype Item = Item(cp: nat, mapping: seq<nat>)

  function Items(ucd: seq<Row>, n: nat): (r: seq<Item>)
    requires n <= |ucd|
    ensures forall it :: it in r ==> it.cp < n && InDm(ucd, it.cp) && it.mapping == ucd[it.cp].dm.value
  {
    if n == 0 then []
    else Items(ucd, n - 1) + (if InDm(ucd, n - 1) then [Item(n - 1, ucd[n - 1].dm.value)] else [])
  }

  function DmItems(ucd: seq<Row>): seq<Item> {
    Items(ucd, |ucd|)
  }

  /** The item list holds exactly the entries of dm. */
  lemma {:induction false} ItemsOfDm(ucd: seq<Row>, n: nat, it: Item)
    requires n <= |ucd|
    ensures it in Items(ucd, n) <==> it.cp < n && it.cp in Dm(ucd) && it.mapping == Dm(ucd)[it.cp]
  {
    if n > 0 {
      ItemsOfDm(ucd, n - 1, it);
    }
  }

  /** dm is filled by one pass over ascending codepoints, so its items come
      in strictly ascending codepoint order, one per codepoint. */
  lemma {:induction false} ItemsAscending(ucd: seq<Row>, n: nat)
    requires n <= |ucd|
    ensures forall j, k :: 0 <= j < k < |Items(ucd, n)| ==> Items(ucd, n)[j].cp < Items(ucd, n)[k].cp
  {
    if n > 0 {
      ItemsAscending(ucd, n - 1);
      var r, prev := Items(ucd, n), Items(ucd, n - 1);
      forall j, k | 0 <= j < k < |r| ensures r[j].cp < r[k].cp {
        if k >= |prev| {
          assert r[j] in prev;
        }
      }
    }
  }

  // ---------------------------------------------------------------------
  // The arity check
  // ---------------------------------------------------------------------

  /** `any(v for v in dm.values() if len(v) not in (1,2))`: an empty tuple
      is falsy, so only a non-empty mapping of another length trips it. */
  predicate ArityCheckFails(dm: map<nat, seq<nat>>) {
    exists i :: i in dm && |dm[i]| != 1 && |dm[i]| != 2 && dm[i] != []
  }

  // ---------------------------------------------------------------------
  // Singleton decompositions: dm1 and its two plane arrays
  // ---------------------------------------------------------------------

  /** The targets of the one-codepoint mappings, in item order. */
  function Singletons(items: seq<Item>): seq<nat> {
    if items == [] then []
    else
      var last := items[|items| - 1];
      Singletons(items[..|items| - 1]) + (if |last.mapping| == 1 then [last.mapping[0]] else [])
  }

  /** v >> 16 */
  function Plane(v: nat): nat {
    Shr(v, 16)
  }

  /** v & 0xFFFF */
  function Low16(v: nat): nat {
    BitAnd(v, 0xFFFF)
  }

  predicate PlanesOk(dm1: seq<nat>) {
    forall k :: 0 <= k < |dm1| ==> Plane(dm1[k]) == 0 || Plane(dm1[k]) == 2
  }

  /** The low 16 bits of the entries of dm1 that lie in the given plane,
      in dm1's order. */
  function PlaneArray(dm1: seq<nat>, plane: nat): seq<nat> {
    if dm1 == [] then []
    else (if Plane(dm1[0]) == plane then [Low16(dm1[0])] else []) + PlaneArray(dm1[1..], plane)
  }

  // ---------------------------------------------------------------------
  // Pair decompositions: dm2 and its narrow and wide parts
  // ---------------------------------------------------------------------

  /** The order field: the codepoint itself when it may anchor a
      recomposition (not excluded, combining class 0), else 0. */
  function OrderField(ucd: seq<Row>, i: nat): nat
    requires i < |ucd|
  {
    if i !in Ce(ucd) && ucd[i].ccc == 0 then i else 0
  }

  /** (first, second, order) for each two-codepoint mapping, in item order. */
  function PairEntries(ucd: seq<Row>, items: seq<Item>): seq<Triple>
    requires forall it :: it in items ==> it.cp < |ucd|
  {
    if items == [] then []
    else
      var last := items[|items| - 1];
      PairEntries(ucd, items[..|items| - 1])
        + (if |last.mapping| == 2 then [Triple(last.mapping[0], last.mapping[1], OrderField(ucd, last.cp))] else [])
  }

  /** filt: the entry fits the narrow 32-bit word. */
  predicate Filt(v: Triple) {
    BitAnd(v.first, 0xFFFFF800) == 0x0000 &&
    BitAnd(v.second, 0xFFFFFF80) == 0x0300 &&
    BitAnd(v.third, 0xFFF0C000) == 0x0000
  }

  function NarrowPart(s: seq<Triple>): seq<Triple> {
    if s == [] then [] else (if Filt(s[0]) then [s[0]] else []) + NarrowPart(s[1..])
  }

  function WidePart(s: seq<Triple>): seq<Triple> {
    if s == [] then [] else (if Filt(s[0]) then [] else [s[0]]) + WidePart(s[1..])
  }

  /** All narrow entries come before all wide ones. */
  predicate NarrowFirst(s: seq<Triple>) {
    forall j, k :: 0 <= j < k < |s| && Filt(s[k]) ==> Filt(s[j])
  }

  // ---------------------------------------------------------------------
  // dm_order
  // ---------------------------------------------------------------------

  /** `{key: i + base for i, key in enumerate(keys)}`: a key that occurs
      twice keeps its later index. */
  function Enumerate<K>(keys: seq<K>, base: nat): map<K, nat> {
    if keys == [] then map[]
    else Enumerate(keys[..|keys| - 1], base)[keys[|keys| - 1] := base + |keys| - 1]
  }

  /** The dm_order key of each entry of dm1: a one-tuple. */
  function SingletonKeys(dm1: seq<nat>): (r: seq<Option<seq<nat>>>)
    ensures |r| == |dm1|
  {
    seq(|dm1|, k requires 0 <= k < |dm1| => Some([dm1[k]]))
  }

  /** The dm_order key of each entry of dm2: the pair without its order. */
  function PairKeys(dm2: seq<Triple>): (r: seq<Option<seq<nat>>>)
    ensures |r| == |dm2|
  {
    seq(|dm2|, k requires 0 <= k < |dm2| => Some([dm2[k].first, dm2[k].second]))
  }

  // ---------------------------------------------------------------------
  // The encoder
  // ---------------------------------------------------------------------

  datatype EncodeError =
    | BadArity         // a mapping of three or more codepoints
    | BadPlane         // a singleton target outside planes 0 and 2
    | NarrowNotFirst   // a narrow pair sorted after a wide one

  datatype Tables = Tables(
    dm: map<nat, seq<nat>>,
    dm1: seq<nat>,
    p0: seq<nat>,
    p2: seq<nat>,
    dm2: seq<Triple>,
    u32: seq<Triple>,
    u64: seq<Triple>,
    dmOrder: map<Option<seq<nat>>, nat>)

  function Dm1(ucd: seq<Row>): seq<nat> {
    SortedSet(Singletons(DmItems(ucd)))
  }

  function Dm2(ucd: seq<Row>): seq<Triple> {
    SortTriples(PairEntries(ucd, DmItems(ucd)))
  }

  /** The checks and tables built from dm, dm1 and dm2, in the generator's
      order: the arity check, the plane check, then the split check. */
  function Tabulate(dm: map<nat, seq<nat>>, dm1: seq<nat>, dm2: seq<Triple>): Result<Tables, EncodeError> {
    if ArityCheckFails(dm) then Err(BadArity)
    else if !PlanesOk(dm1) then Err(BadPlane)
    else
      var p0, p2 := PlaneArray(dm1, 0), PlaneArray(dm1, 2);
      var u32, u64 := NarrowPart(dm2), WidePart(dm2);
      if u32 + u64 != dm2 then Err(NarrowNotFirst)
      else
        var l := 1 + |p0| + |p2|;
        var dmOrder := map[None := 0] + Enumerate(SingletonKeys(dm1), 1) + Enumerate(PairKeys(dm2), l);
        Ok(Tables(dm, dm1, p0, p2, dm2, u32, u64, dmOrder))
  }

  function Encode(ucd: seq<Row>): Result<Tables, EncodeError> {
    Tabulate(Dm(ucd), Dm1(ucd), Dm2(ucd))
  }

  // ---------------------------------------------------------------------
  // Decoding an index back through the tables
  // ---------------------------------------------------------------------

  function IndexLimit(t: Tables): nat {
    1 + |t.p0| + |t.p2| + |t.u32| + |t.u64|
  }

  /** The mapping an index stands for: 0 is no decomposition, then the
      plane-0 singletons, the plane-2 singletons, the narrow pairs and the
      wide pairs. */
  function Decode(t: Tables, n: nat): Option<seq<nat>>
    requires n < IndexLimit(t)
  {
    if n == 0 then None
    else if n <= |t.p0| then Some([t.p0[n - 1]])
    else if n <= |t.p0| + |t.p2| then Some([Shl(2, 16) + t.p2[n - 1 - |t.p0|]])
    else
      var j := n - 1 - |t.p0| - |t.p2|;
      var e := if j < |t.u32| then t.u32[j] else t.u64[j - |t.u32|];
      Some([e.first, e.second])
  }

  /** The value the `dm` stream holds for codepoint i: dm_order of its
      mapping, 0 when it has none, and None when its mapping has no key in
      dm_order (the packer's lookup would fail). */
  function DmIndex(t: Tables, i: nat): Option<nat> {
    if i !in t.dm then (if None in t.dmOrder then Some(t.dmOrder[None]) else None)
    else if Some(t.dm[i]) in t.dmOrder then Some(t.dmOrder[Some(t.dm[i])])
    else None
  }
}
