/** What the decomposition encoder guarantees: which records are encoded,
    when generation aborts, how singletons split by plane, how pairs are
    ordered and split, the layout of dm_order, and that every stored index
    decodes back to its mapping. */
module DecompositionLaws {
  import opened UcdRecords
  import opened Sorting
  import opened Bits
  import opened Decomposition

  // ---------------------------------------------------------------------
  // dm and the arity check
  // ---------------------------------------------------------------------

  /** dm has an entry exactly for the canonical, non-"#", non-Hangul-syllable
      records, and that entry is the record's mapping. */
  lemma DmEntries(ucd: seq<Row>, i: nat)
    ensures i in Dm(ucd) <==>
      i < |ucd| && ucd[i].dm.Some? && ucd[i].dt == "can" && !(0xAC00 <= i < 0xAC00 + 11172)
    ensures i in Dm(ucd) ==> Dm(ucd)[i] == ucd[i].dm.value
  {
  }

  /** Generation aborts on the arity check exactly when some mapping has
      three or more codepoints; an empty mapping passes. */
  lemma ArityCheck(ucd: seq<Row>)
    ensures Encode(ucd) == Err(BadArity) <==> exists i :: i in Dm(ucd) && |Dm(ucd)[i]| > 2
    ensures Encode(ucd).Ok? ==> forall i :: i in Dm(ucd) ==> |Dm(ucd)[i]| <= 2
  {
  }

  // ---------------------------------------------------------------------
  // Singletons
  // ---------------------------------------------------------------------

  lemma {:induction false} SingletonsMembers(items: seq<Item>, v: nat)
    ensures v in Singletons(items) <==> exists it :: it in items && it.mapping == [v]
  {
    if items != [] {
      var init, last := items[..|items| - 1], items[|items| - 1];
      assert items == init + [last];
      SingletonsMembers(init, v);
      if |last.mapping| == 1 {
        assert last.mapping == [last.mapping[0]];
      }
    }
  }

  /** dm1 is sorted(set(...)) of the singleton targets: ascending, without
      duplicates, and holding exactly the targets of the one-codepoint
      mappings in dm. */
  lemma Dm1Contents(ucd: seq<Row>, v: nat)
    ensures StrictlyIncreasing(Dm1(ucd))
    ensures v in Dm1(ucd) <==> exists i :: i in Dm(ucd) && Dm(ucd)[i] == [v]
  {
    SingletonsMembers(DmItems(ucd), v);
    if exists i :: i in Dm(ucd) && Dm(ucd)[i] == [v] {
      var i :| i in Dm(ucd) && Dm(ucd)[i] == [v];
      ItemsOfDm(ucd, |ucd|, Item(i, [v]));
    }
    if exists it :: it in DmItems(ucd) && it.mapping == [v] {
      var it :| it in DmItems(ucd) && it.mapping == [v];
      ItemsOfDm(ucd, |ucd|, it);
    }
  }

  lemma {:induction false} PlaneArrayAll(s: seq<nat>, plane: nat)
    requires forall k :: 0 <= k < |s| ==> Plane(s[k]) == plane
    ensures |PlaneArray(s, plane)| == |s|
    ensures forall k :: 0 <= k < |s| ==> PlaneArray(s, plane)[k] == Low16(s[k])
  {
    if s != [] {
      PlaneArrayAll(s[1..], plane);
    }
  }

  lemma {:induction false} PlaneArrayNone(s: seq<nat>, plane: nat)
    requires forall k :: 0 <= k < |s| ==> Plane(s[k]) != plane
    ensures PlaneArray(s, plane) == []
  {
    if s != [] {
      PlaneArrayNone(s[1..], plane);
    }
  }

  /** For an ascending dm1 with planes 0 and 2 only, the plane-0 array
      followed by the plane-2 array has one entry per entry of dm1, that
      entry's low 16 bits, and the plane-0 entries are exactly the first
      |p0| of dm1. */
  lemma {:induction false} PlaneArrays(dm1: seq<nat>)
    requires StrictlyIncreasing(dm1) && PlanesOk(dm1)
    ensures |PlaneArray(dm1, 0)| + |PlaneArray(dm1, 2)| == |dm1|
    ensures forall k :: 0 <= k < |dm1| ==>
      (PlaneArray(dm1, 0) + PlaneArray(dm1, 2))[k] == Low16(dm1[k])
    ensures forall k :: 0 <= k < |dm1| ==> (Plane(dm1[k]) == 0 <==> k < |PlaneArray(dm1, 0)|)
  {
    if dm1 != [] {
      if Plane(dm1[0]) == 0 {
        PlaneArrays(dm1[1..]);
      } else {
        forall k | 0 <= k < |dm1| ensures Plane(dm1[k]) == 2 {
          ShrMonotone(dm1[0], dm1[k], 16);
        }
        PlaneArrayAll(dm1, 2);
        PlaneArrayNone(dm1, 0);
      }
    }
  }

  /** A plane-0 codepoint is its own low 16 bits; a plane-2 codepoint is
      0x20000 plus them. */
  lemma PlaneParts(v: nat)
    ensures Plane(v) == 0 ==> Low16(v) == v
    ensures Plane(v) == 2 ==> Shl(2, 16) + Low16(v) == v
  {
    Powers();
    HighLow(v, 16);
    BitAndLowOnes(v, 16);
    ZeroShifts(16);
  }

  // ---------------------------------------------------------------------
  // Pairs
  // ---------------------------------------------------------------------

  lemma {:induction false} PairEntriesMembers(ucd: seq<Row>, items: seq<Item>, e: Triple)
    requires forall it :: it in items ==> it.cp < |ucd|
    ensures e in PairEntries(ucd, items) <==>
      exists it :: it in items && it.cp < |ucd| && |it.mapping| == 2 &&
        e == Triple(it.mapping[0], it.mapping[1], OrderField(ucd, it.cp))
  {
    if items != [] {
      var init, last := items[..|items| - 1], items[|items| - 1];
      assert items == init + [last];
      PairEntriesMembers(ucd, init, e);
    }
  }

  /** dm2 is sorted by (first, second, order), and an entry is in dm2
      exactly when some two-codepoint mapping in dm yields it, with the
      order field of that mapping's codepoint. */
  lemma Dm2Contents(ucd: seq<Row>, e: Triple)
    ensures SortedTriples(Dm2(ucd))
    ensures e in Dm2(ucd) <==>
      exists i :: i < |ucd| && i in Dm(ucd) && |Dm(ucd)[i]| == 2 &&
        e == Triple(Dm(ucd)[i][0], Dm(ucd)[i][1], OrderField(ucd, i))
  {
    var items := DmItems(ucd);
    assert e in Dm2(ucd) <==> e in PairEntries(ucd, items) by {
      assert e in Dm2(ucd) <==> e in multiset(Dm2(ucd));
      assert multiset(Dm2(ucd)) == multiset(PairEntries(ucd, items));
      assert e in PairEntries(ucd, items) <==> e in multiset(PairEntries(ucd, items));
    }
    PairEntriesMembers(ucd, items, e);
    if exists i :: i < |ucd| && i in Dm(ucd) && |Dm(ucd)[i]| == 2 &&
        e == Triple(Dm(ucd)[i][0], Dm(ucd)[i][1], OrderField(ucd, i)) {
      var i :| i < |ucd| && i in Dm(ucd) && |Dm(ucd)[i]| == 2 &&
        e == Triple(Dm(ucd)[i][0], Dm(ucd)[i][1], OrderField(ucd, i));
      ItemsOfDm(ucd, |ucd|, Item(i, Dm(ucd)[i]));
    }
    if exists it :: it in items && it.cp < |ucd| && |it.mapping| == 2 &&
        e == Triple(it.mapping[0], it.mapping[1], OrderField(ucd, it.cp)) {
      var it :| it in items && it.cp < |ucd| && |it.mapping| == 2 &&
        e == Triple(it.mapping[0], it.mapping[1], OrderField(ucd, it.cp));
      ItemsOfDm(ucd, |ucd|, it);
    }
  }

  /** The codepoints below n whose two-codepoint mapping yields e. */
  ghost function PairSources(ucd: seq<Row>, e: Triple, n: nat): set<nat>
    requires n <= |ucd|
  {
    set i: nat | i < n && YieldsPair(ucd, e, i)
  }

  /** Whether codepoint i's mapping yields the pair entry e. */
  predicate YieldsPair(ucd: seq<Row>, e: Triple, i: nat)
    requires i < |ucd|
  {
    InDm(ucd, i) && |ucd[i].dm.value| == 2 &&
    e == Triple(ucd[i].dm.value[0], ucd[i].dm.value[1], OrderField(ucd, i))
  }

  /** The number of codepoints below n that yield e, counted one by one. */
  ghost function SourceCount(ucd: seq<Row>, e: Triple, n: nat): nat
    requires n <= |ucd|
  {
    if n == 0 then 0 else SourceCount(ucd, e, n - 1) + (if YieldsPair(ucd, e, n - 1) then 1 else 0)
  }

  lemma {:induction false} SourceCountCard(ucd: seq<Row>, e: Triple, n: nat)
    requires n <= |ucd|
    ensures SourceCount(ucd, e, n) == |PairSources(ucd, e, n)|
  {
    if n > 0 {
      SourceCountCard(ucd, e, n - 1);
      PairSourcesStep(ucd, e, n);
    }
  }

  lemma PairSourcesStep(ucd: seq<Row>, e: Triple, n: nat)
    requires 0 < n <= |ucd|
    ensures |PairSources(ucd, e, n)| ==
      |PairSources(ucd, e, n - 1)| + (if YieldsPair(ucd, e, n - 1) then 1 else 0)
  {
    var before, after := PairSources(ucd, e, n - 1), PairSources(ucd, e, n);
    var last: set<nat> := if YieldsPair(ucd, e, n - 1) then {n - 1} else {};
    forall i: nat ensures i in after <==> i in before + last {
      if i < n - 1 {
        assert i in after <==> YieldsPair(ucd, e, i);
        assert i in before <==> YieldsPair(ucd, e, i);
      }
    }
    assert after == before + last;
    assert n - 1 !in before;
  }

  /** Whether an item's mapping yields the pair entry e. */
  predicate ItemYields(ucd: seq<Row>, e: Triple, it: Item)
    requires it.cp < |ucd|
  {
    |it.mapping| == 2 && e == Triple(it.mapping[0], it.mapping[1], OrderField(ucd, it.cp))
  }

  /** The number of items that yield e. */
  ghost function ItemCount(ucd: seq<Row>, e: Triple, items: seq<Item>): nat
    requires forall x :: x in items ==> x.cp < |ucd|
  {
    if items == [] then 0
    else ItemCount(ucd, e, items[..|items| - 1]) + (if ItemYields(ucd, e, items[|items| - 1]) then 1 else 0)
  }

  /** Each item contributes its own entry to PairEntries. */
  lemma {:induction false} EntriesCount(ucd: seq<Row>, e: Triple, items: seq<Item>)
    requires forall x :: x in items ==> x.cp < |ucd|
    ensures multiset(PairEntries(ucd, items))[e] == ItemCount(ucd, e, items)
  {
    if items != [] {
      var init := items[..|items| - 1];
      assert forall x :: x in init ==> x in items;
      EntriesCount(ucd, e, init);
    }
  }

  /** Counting the items of the first n records is counting the codepoints
      below n. */
  lemma {:induction false} ItemsCount(ucd: seq<Row>, e: Triple, n: nat)
    requires n <= |ucd|
    ensures ItemCount(ucd, e, Items(ucd, n)) == SourceCount(ucd, e, n)
  {
    if n > 0 {
      ItemsCount(ucd, e, n - 1);
      var prev := Items(ucd, n - 1);
      if InDm(ucd, n - 1) {
        var items := prev + [Item(n - 1, ucd[n - 1].dm.value)];
        assert Items(ucd, n) == items;
        assert items[..|items| - 1] == prev;
      } else {
        assert Items(ucd, n) == prev;
      }
    }
  }

  /** dm2 holds e as many times as there are codepoints whose two-codepoint
      mapping, with that codepoint's order field, is e: a pair shared by
      several codepoints occurs once for each. */
  lemma Dm2Count(ucd: seq<Row>, e: Triple)
    ensures multiset(Dm2(ucd))[e] == |PairSources(ucd, e, |ucd|)|
  {
    EntriesCount(ucd, e, DmItems(ucd));
    ItemsCount(ucd, e, |ucd|);
    SourceCountCard(ucd, e, |ucd|);
  }

  /** The order field is the codepoint when it is neither a composition
      exclusion nor a combining mark, and 0 otherwise. */
  lemma OrderFieldCases(ucd: seq<Row>, i: nat)
    requires i < |ucd|
    ensures !ucd[i].compEx && ucd[i].ccc == 0 ==> OrderField(ucd, i) == i
    ensures ucd[i].compEx || ucd[i].ccc != 0 ==> OrderField(ucd, i) == 0
  {
  }

  // ---------------------------------------------------------------------
  // The narrow / wide split
  // ---------------------------------------------------------------------

  lemma {:induction false} NoneNarrow(s: seq<Triple>)
    requires forall k :: 0 <= k < |s| ==> !Filt(s[k])
    ensures NarrowPart(s) == [] && WidePart(s) == s
  {
    if s != [] {
      NoneNarrow(s[1..]);
      assert s == [s[0]] + s[1..];
    }
  }

  lemma {:induction false} FirstNarrow(s: seq<Triple>, k: nat)
    requires k < |s| && Filt(s[k])
    ensures NarrowPart(s) != [] && Filt(NarrowPart(s)[0])
  {
    if !Filt(s[0]) {
      FirstNarrow(s[1..], k - 1);
    }
  }

  /** Each entry lands in exactly one of the two arrays, the narrow one
      exactly when filt holds of it. */
  lemma {:induction false} SplitMembers(s: seq<Triple>)
    ensures forall v :: v in NarrowPart(s) ==> Filt(v)
    ensures forall v :: v in WidePart(s) ==> !Filt(v)
    ensures multiset(NarrowPart(s)) + multiset(WidePart(s)) == multiset(s)
  {
    if s != [] {
      SplitMembers(s[1..]);
      assert s == [s[0]] + s[1..];
    }
  }

  /** Narrow entries first means the narrow array followed by the wide one
      gives back dm2. */
  lemma {:induction false} SplitWhenNarrowFirst(s: seq<Triple>)
    requires NarrowFirst(s)
    ensures NarrowPart(s) + WidePart(s) == s
  {
    if s != [] {
      var rest := s[1..];
      assert s == [s[0]] + rest;
      assert NarrowFirst(rest) by {
        forall j, k | 0 <= j < k < |rest| && Filt(rest[k]) ensures Filt(rest[j]) {
          assert s[j + 1] == rest[j] && s[k + 1] == rest[k];
        }
      }
      SplitWhenNarrowFirst(rest);
      if !Filt(s[0]) {
        forall k | 0 <= k < |rest| ensures !Filt(rest[k]) {
          assert s[k + 1] == rest[k];
        }
        NoneNarrow(rest);
      }
    }
  }

  /** A wide entry before a narrow one makes the check fail. */
  lemma {:induction false} SplitFailsOutOfOrder(s: seq<Triple>, j: nat, k: nat)
    requires j < k < |s| && Filt(s[k]) && !Filt(s[j])
    ensures NarrowPart(s) + WidePart(s) != s
  {
    var rest := s[1..];
    assert s == [s[0]] + rest;
    assert rest[k - 1] == s[k];
    if !Filt(s[0]) {
      FirstNarrow(rest, k - 1);
      assert NarrowPart(s) == NarrowPart(rest);
      assert (NarrowPart(s) + WidePart(s))[0] == NarrowPart(rest)[0];
    } else {
      assert rest[j - 1] == s[j];
      SplitFailsOutOfOrder(rest, j - 1, k - 1);
      assert NarrowPart(s) + WidePart(s) == [s[0]] + (NarrowPart(rest) + WidePart(rest));
    }
  }

  /** The assertion that the narrow array followed by the wide one gives
      back dm2 holds exactly when all narrow entries come first. */
  lemma SplitCheck(s: seq<Triple>)
    ensures NarrowPart(s) + WidePart(s) == s <==> NarrowFirst(s)
  {
    if NarrowFirst(s) {
      SplitWhenNarrowFirst(s);
    } else {
      var j, k :| 0 <= j < k < |s| && Filt(s[k]) && !Filt(s[j]);
      SplitFailsOutOfOrder(s, j, k);
    }
  }


  lemma FirstMask(a: nat)
    requires a < 0x1_0000_0000
    ensures BitAnd(a, 0xFFFFF800) == 0 <==> a < 0x800
  {
    Powers();
    ShlIsMul(Shl(1, 21) - 1, 11);
    assert 0xFFFFF800 == Shl(Shl(1, 21) - 1, 11);
    OnesAt(a, 21, 11);
    ShrBelow(a, 21, 11);
    LowOfSmall(Shr(a, 11), 21);
    ShlInjective(Shr(a, 11), 0, 11);
    ZeroShifts(11);
    ShrIs(a, 11, 0);
  }

  lemma SecondMask(b: nat)
    requires b < 0x1_0000_0000
    ensures BitAnd(b, 0xFFFFFF80) == 0x0300 <==> 0x0300 <= b <= 0x037F
  {
    Powers();
    ShlIsMul(Shl(1, 25) - 1, 7);
    ShlIsMul(6, 7);
    ShlIsMul(7, 7);
    assert 0xFFFFFF80 == Shl(Shl(1, 25) - 1, 7);
    OnesAt(b, 25, 7);
    ShrBelow(b, 25, 7);
    LowOfSmall(Shr(b, 7), 25);
    ShlInjective(Shr(b, 7), 6, 7);
    ShrIs(b, 7, 6);
  }

  lemma OrderMaskHigh(o: nat)
    requires o < 0x1_0000_0000
    ensures BitAnd(Shr(o, 16), 0xFFF0) == 0 <==> o < 0x100000
  {
    Powers();
    ShlIsMul(Shl(1, 12) - 1, 4);
    assert 0xFFF0 == Shl(Shl(1, 12) - 1, 4);
    OnesAt(Shr(o, 16), 12, 4);
    ShrShr(o, 16, 4);
    ShrBelow(o, 12, 20);
    LowOfSmall(Shr(o, 20), 12);
    ZeroShifts(4);
    ShlInjective(Shr(o, 20), 0, 4);
    ZeroShifts(20);
    ShrIs(o, 20, 0);
  }

  lemma OrderMaskLow(o: nat)
    ensures BitAnd(Low(o, 16), 0xC000) == 0 <==> Low16(o) < 0x4000
  {
    Powers();
    ShlIsMul(Shl(1, 2) - 1, 14);
    assert 0xC000 == Shl(Shl(1, 2) - 1, 14);
    OnesAt(Low(o, 16), 2, 14);
    LowBound(o, 16);
    ShrBelow(Low(o, 16), 2, 14);
    LowOfSmall(Shr(Low(o, 16), 14), 2);
    ZeroShifts(14);
    ShlInjective(Shr(Low(o, 16), 14), 0, 14);
    ShrIs(Low(o, 16), 14, 0);
    BitAndLowOnes(o, 16);
  }

  lemma OrderMask(o: nat)
    requires o < 0x1_0000_0000
    ensures BitAnd(o, 0xFFF0C000) == 0 <==> o < 0x100000 && Low16(o) < 0x4000
  {
    Powers();
    ShlIsMul(0xFFF0, 16);
    assert 0xFFF0C000 == Shl(0xFFF0, 16) + 0xC000 && 0xC000 < Shl(1, 16);
    BitAndSplit(o, 0xFFF0, 0xC000, 16);
    var hi := BitAnd(Shr(o, 16), 0xFFF0);
    ZeroShifts(16);
    ShlInjective(hi, 0, 16);
    OrderMaskHigh(o);
    OrderMaskLow(o);
  }

  /** filt in plain ranges, for values that fit 32 bits: the base is below
      0x800, the combining mark lies in [0x0300, 0x037F], and the order is
      below 0x100000 with its low 16 bits below 0x4000. */
  lemma FiltRanges(v: Triple)
    requires v.first < 0x1_0000_0000 && v.second < 0x1_0000_0000 && v.third < 0x1_0000_0000
    ensures Filt(v) <==>
      v.first < 0x800 && 0x0300 <= v.second <= 0x037F &&
      v.third < 0x100000 && Low16(v.third) < 0x4000
  {
    FirstMask(v.first);
    SecondMask(v.second);
    OrderMask(v.third);
  }

  // ---------------------------------------------------------------------
  // dm_order
  // ---------------------------------------------------------------------

  /** The dict comprehension keeps, for each key, the index of its last
      occurrence. */
  lemma {:induction false} EnumerateLast<K>(keys: seq<K>, base: nat, key: K)
    ensures key in Enumerate(keys, base) <==> key in keys
    ensures key in Enumerate(keys, base) ==>
      base <= Enumerate(keys, base)[key] < base + |keys| &&
      keys[Enumerate(keys, base)[key] - base] == key &&
      forall j :: Enumerate(keys, base)[key] - base < j < |keys| ==> keys[j] != key
  {
    if keys != [] {
      var init := keys[..|keys| - 1];
      assert keys == init + [keys[|keys| - 1]];
      EnumerateLast(init, base, key);
    }
  }

  /** The layout of dm_order on a table set of the shape Encode builds. */
  predicate Coherent(t: Tables) {
    StrictlyIncreasing(t.dm1) && PlanesOk(t.dm1) &&
    t.p0 == PlaneArray(t.dm1, 0) && t.p2 == PlaneArray(t.dm1, 2) &&
    t.u32 + t.u64 == t.dm2 &&
    t.dmOrder == map[None := 0] + Enumerate(SingletonKeys(t.dm1), 1)
      + Enumerate(PairKeys(t.dm2), 1 + |t.p0| + |t.p2|)
  }

  /** dm_order holds None, the one-tuples of dm1 and the pairs of dm2, and
      nothing else; None is 0. */
  lemma DmOrderKeys(t: Tables, key: Option<seq<nat>>)
    requires Coherent(t)
    ensures None in t.dmOrder && t.dmOrder[None] == 0
    ensures key in t.dmOrder <==> key == None || key in SingletonKeys(t.dm1) || key in PairKeys(t.dm2)
  {
    var l := 1 + |t.p0| + |t.p2|;
    EnumerateLast(SingletonKeys(t.dm1), 1, key);
    EnumerateLast(PairKeys(t.dm2), l, key);
    EnumerateLast(SingletonKeys(t.dm1), 1, None);
    EnumerateLast(PairKeys(t.dm2), l, None);
    assert None !in SingletonKeys(t.dm1) && None !in PairKeys(t.dm2);
  }

  /** The k-th entry of dm1 has index k + 1. */
  lemma DmOrderSingleton(t: Tables, k: nat)
    requires Coherent(t) && k < |t.dm1|
    ensures Some([t.dm1[k]]) in t.dmOrder && t.dmOrder[Some([t.dm1[k]])] == k + 1
  {
    var l := 1 + |t.p0| + |t.p2|;
    var one := Some([t.dm1[k]]);
    var ones := Enumerate(SingletonKeys(t.dm1), 1);
    assert SingletonKeys(t.dm1)[k] == one;
    EnumerateLast(SingletonKeys(t.dm1), 1, one);
    EnumerateLast(PairKeys(t.dm2), l, one);
    assert one !in PairKeys(t.dm2);
    var n := ones[one] - 1;
    assert SingletonKeys(t.dm1)[n] == one;
    assert t.dm1[n] == t.dm1[k];
    assert n == k;
  }

  /** A pair's index is l + j for the last position j of dm2 holding that
      pair, where l = 1 + |p0| + |p2|. */
  lemma DmOrderPair(t: Tables, key: Option<seq<nat>>)
    requires Coherent(t) && key in PairKeys(t.dm2)
    ensures key in t.dmOrder
    ensures var l := 1 + |t.p0| + |t.p2|;
      var n := t.dmOrder[key];
      l <= n < l + |t.dm2| && PairKeys(t.dm2)[n - l] == key &&
      forall j :: n - l < j < |t.dm2| ==> PairKeys(t.dm2)[j] != key
  {
    var l := 1 + |t.p0| + |t.p2|;
    EnumerateLast(PairKeys(t.dm2), l, key);
  }

  // ---------------------------------------------------------------------
  // The round trip
  // ---------------------------------------------------------------------

  /** The tables of an Ok result, in terms of dm, dm1 and dm2. */
  lemma TabulateOk(dm: map<nat, seq<nat>>, dm1: seq<nat>, dm2: seq<Triple>, t: Tables)
    requires StrictlyIncreasing(dm1)
    requires Tabulate(dm, dm1, dm2) == Ok(t)
    ensures Coherent(t)
    ensures t.dm == dm && !ArityCheckFails(dm)
    ensures t.dm1 == dm1 && t.dm2 == dm2
    ensures t.u32 == NarrowPart(dm2) && t.u64 == WidePart(dm2)
  {
  }

  /** The facts an Ok result carries. */
  lemma EncodeOk(ucd: seq<Row>, t: Tables)
    requires Encode(ucd) == Ok(t)
    ensures Coherent(t)
    ensures t.dm == Dm(ucd) && !ArityCheckFails(t.dm)
    ensures t.dm1 == Dm1(ucd) && t.dm2 == Dm2(ucd)
    ensures t.u32 == NarrowPart(t.dm2) && t.u64 == WidePart(t.dm2)
  {
    TabulateOk(Dm(ucd), Dm1(ucd), Dm2(ucd), t);
  }

  /** The encoder fails exactly when one of its three assertions does, and
      with the error of the first one that does. */
  lemma TabulateSucceeds(dm: map<nat, seq<nat>>, dm1: seq<nat>, dm2: seq<Triple>)
    ensures Tabulate(dm, dm1, dm2).Ok? <==> !ArityCheckFails(dm) && PlanesOk(dm1) && NarrowFirst(dm2)
    ensures Tabulate(dm, dm1, dm2) == Err(BadArity) <==> ArityCheckFails(dm)
    ensures Tabulate(dm, dm1, dm2) == Err(BadPlane) <==> !ArityCheckFails(dm) && !PlanesOk(dm1)
    ensures Tabulate(dm, dm1, dm2) == Err(NarrowNotFirst) <==>
      !ArityCheckFails(dm) && PlanesOk(dm1) && !NarrowFirst(dm2)
  {
    SplitCheck(dm2);
  }

  /** The same for a repertoire. */
  lemma EncodeSucceeds(ucd: seq<Row>)
    ensures Encode(ucd).Ok? <==> !ArityCheckFails(Dm(ucd)) && PlanesOk(Dm1(ucd)) && NarrowFirst(Dm2(ucd))
  {
    TabulateSucceeds(Dm(ucd), Dm1(ucd), Dm2(ucd));
  }

  /** Every one-codepoint mapping of dm has its target in dm1. */
  lemma EncodedSingleton(ucd: seq<Row>, t: Tables, i: nat)
    requires Encode(ucd) == Ok(t)
    requires i in t.dm && |t.dm[i]| == 1
    ensures t.dm[i][0] in t.dm1
  {
    EncodeOk(ucd, t);
    var v := t.dm[i][0];
    assert t.dm[i] == [v];
    Dm1Contents(ucd, v);
  }

  /** Every two-codepoint mapping of dm has its pair among dm2's keys. */
  lemma PairInDm2(ucd: seq<Row>, i: nat)
    requires i in Dm(ucd) && |Dm(ucd)[i]| == 2
    ensures Some(Dm(ucd)[i]) in PairKeys(Dm2(ucd))
  {
    var m := Dm(ucd)[i];
    DmEntries(ucd, i);
    var e := Triple(m[0], m[1], OrderField(ucd, i));
    Dm2Contents(ucd, e);
    assert e in Dm2(ucd);
    var j :| 0 <= j < |Dm2(ucd)| && Dm2(ucd)[j] == e;
    assert m == [m[0], m[1]];
    assert PairKeys(Dm2(ucd))[j] == Some(m);
  }

  lemma EncodedPair(ucd: seq<Row>, t: Tables, i: nat)
    requires Encode(ucd) == Ok(t)
    requires i in t.dm && |t.dm[i]| == 2
    ensures Some(t.dm[i]) in PairKeys(t.dm2)
  {
    EncodeOk(ucd, t);
    PairInDm2(ucd, i);
  }

  /** Index k + 1 decodes to the k-th entry of dm1. */
  lemma DecodeSingleton(t: Tables, k: nat)
    requires StrictlyIncreasing(t.dm1) && PlanesOk(t.dm1)
    requires t.p0 == PlaneArray(t.dm1, 0) && t.p2 == PlaneArray(t.dm1, 2)
    requires k < |t.dm1|
    ensures k + 1 < IndexLimit(t)
    ensures Decode(t, k + 1) == Some([t.dm1[k]])
  {
    var v := t.dm1[k];
    PlaneArrays(t.dm1);
    PlaneParts(v);
    assert (t.p0 + t.p2)[k] == Low16(v);
    if k < |t.p0| {
      assert t.p0[k] == Low16(v);
    } else {
      assert t.p2[k - |t.p0|] == Low16(v);
    }
  }

  /** A singleton decodes back from its index. */
  lemma SingletonRoundTrip(t: Tables, v: nat)
    requires Coherent(t) && v in t.dm1
    ensures Some([v]) in t.dmOrder
    ensures t.dmOrder[Some([v])] < IndexLimit(t)
    ensures Decode(t, t.dmOrder[Some([v])]) == Some([v])
  {
    var k :| 0 <= k < |t.dm1| && t.dm1[k] == v;
    DmOrderSingleton(t, k);
    DecodeSingleton(t, k);
  }

  /** Singletons take indices 1 to |dm1|, the plane-0 ones exactly those
      up to |p0|. */
  lemma SingletonIndexPlane(t: Tables, v: nat)
    requires Coherent(t) && v in t.dm1
    ensures Some([v]) in t.dmOrder
    ensures 1 <= t.dmOrder[Some([v])] <= |t.dm1|
    ensures Plane(v) == 0 <==> t.dmOrder[Some([v])] <= |t.p0|
  {
    var k :| 0 <= k < |t.dm1| && t.dm1[k] == v;
    DmOrderSingleton(t, k);
    PlaneArrays(t.dm1);
  }

  /** A pair decodes back from its index. */
  lemma PairRoundTrip(t: Tables, key: Option<seq<nat>>)
    requires Coherent(t) && key in PairKeys(t.dm2)
    ensures key in t.dmOrder
    ensures t.dmOrder[key] < IndexLimit(t)
    ensures Decode(t, t.dmOrder[key]) == key
  {
    DmOrderPair(t, key);
    var l := 1 + |t.p0| + |t.p2|;
    var j := t.dmOrder[key] - l;
    assert PairKeys(t.dm2)[j] == key;
    assert |t.u32| + |t.u64| == |t.dm2|;
    assert j < |t.u32| ==> t.u32[j] == t.dm2[j];
    assert j >= |t.u32| ==> t.u64[j - |t.u32|] == t.dm2[j];
  }

  /** Every non-empty mapping in dm has a dm_order index, and decoding that
      index through p0, p2 and the narrow and wide pair arrays gives the
      mapping back. */
  lemma RoundTrip(ucd: seq<Row>, t: Tables, i: nat)
    requires Encode(ucd) == Ok(t)
    requires i in t.dm && t.dm[i] != []
    ensures Some(t.dm[i]) in t.dmOrder
    ensures t.dmOrder[Some(t.dm[i])] < IndexLimit(t)
    ensures Decode(t, t.dmOrder[Some(t.dm[i])]) == Some(t.dm[i])
  {
    EncodeOk(ucd, t);
    if |t.dm[i]| == 1 {
      EncodedSingleton(ucd, t, i);
      assert t.dm[i] == [t.dm[i][0]];
      SingletonRoundTrip(t, t.dm[i][0]);
    } else {
      assert |t.dm[i]| == 2;
      EncodedPair(ucd, t, i);
      PairRoundTrip(t, Some(t.dm[i]));
    }
  }

  /** The `dm` stream: a codepoint outside dm stores 0, which decodes to no
      decomposition; a codepoint in dm stores an index that decodes to its
      mapping; only an empty mapping, which passed the arity check, has no
      index. */
  lemma DmStream(ucd: seq<Row>, t: Tables, i: nat)
    requires Encode(ucd) == Ok(t)
    requires i < |ucd|
    ensures DmIndex(t, i) == None <==> InDm(ucd, i) && ucd[i].dm.value == []
    ensures DmIndex(t, i).Some? ==>
      DmIndex(t, i).value < IndexLimit(t) &&
      Decode(t, DmIndex(t, i).value) == (if InDm(ucd, i) then Some(ucd[i].dm.value) else None)
  {
    EncodeOk(ucd, t);
    DmOrderKeys(t, None);
    if i in t.dm {
      if t.dm[i] != [] {
        RoundTrip(ucd, t, i);
      } else {
        DmOrderKeys(t, Some([]));
        assert Some([]) !in SingletonKeys(t.dm1);
        assert Some([]) !in PairKeys(t.dm2);
      }
    }
  }

  /** The repertoire of the example below: one canonical record whose
      mapping is empty. */
  function EmptyMappingRepertoire(): seq<Row> {
    [Row("Lo", 0, None, "Latn", "can", Some([]), false)]
  }

  lemma EmptyMappingDm()
    ensures Dm(EmptyMappingRepertoire()) == map[0 := []]
  {
    var ucd := EmptyMappingRepertoire();
    assert InDm(ucd, 0);
    forall i | i in Dm(ucd) ensures i == 0 {
      DmEntries(ucd, i);
    }
  }

  lemma EmptyMappingItems()
    ensures DmItems(EmptyMappingRepertoire()) == [Item(0, [])]
  {
    var ucd := EmptyMappingRepertoire();
    assert InDm(ucd, 0);
    assert Items(ucd, 0) == [];
  }

  /** Its dm holds the empty mapping, and dm1 and dm2 are empty. */
  lemma EmptyMappingSources()
    ensures Dm(EmptyMappingRepertoire()) == map[0 := []]
    ensures Dm1(EmptyMappingRepertoire()) == [] && Dm2(EmptyMappingRepertoire()) == []
  {
    var ucd := EmptyMappingRepertoire();
    EmptyMappingDm();
    EmptyMappingItems();
    var items := [Item(0, [])];
    assert Singletons(items) == [];
    assert PairEntries(ucd, items) == [];
  }

  /** The tables built from that dm: only None has an index. */
  lemma EmptyMappingTables()
    ensures Tabulate(map[0 := []], [], []) == Ok(Tables(map[0 := []], [], [], [], [], [], [], map[None := 0]))
  {
    var dm: map<nat, seq<nat>> := map[0 := []];
    assert !ArityCheckFails(dm) by {
      forall i | i in dm ensures dm[i] == [] {
      }
    }
    var dmOrder: map<Option<seq<nat>>, nat> := map[None := 0];
    assert PlaneArray([], 0) == [] && PlaneArray([], 2) == [];
    assert NarrowPart([]) == [] && WidePart([]) == [];
    assert SingletonKeys([]) == [] && PairKeys([]) == [];
    assert Enumerate<Option<seq<nat>>>([], 1) == map[];
    assert dmOrder + map[] + map[] == dmOrder;
  }

  /** A canonical record with an empty mapping slips past the arity check
      and then has no index in dm_order. */
  lemma EmptyMappingHasNoIndex()
    ensures Encode(EmptyMappingRepertoire()).Ok?
    ensures DmIndex(Encode(EmptyMappingRepertoire()).value, 0) == None
  {
    EmptyMappingSources();
    EmptyMappingTables();
  }
}
