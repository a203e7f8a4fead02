/** The latest-scan key selection of screens/Home.js:
    `Object.keys(data).sort((a, b) => ord(b) - ord(a))[0]` with
    `ord(k) = parseInt(k.split("_")[1])`. The sort is stable, so among keys
    of equal ordinal the one earliest in `Object.keys` order comes first. */
module ScanKeys {
  import opened Wrappers
  import opened JsNumber

  /** The position of the first `c` in `s`, if any. */
  function IndexOf(s: string, c: char): (r: Option<nat>)
    ensures r.Some? ==> r.value < |s|
  {
    if |s| == 0 then None
    else if s[0] == c then Some(0)
    else match IndexOf(s[1..], c)
      case None => None
      case Some(i) => Some(i + 1)
  }

  /** `IndexOf` finds the first occurrence, and finds none only when there
      is none. */
  lemma {:induction false} IndexOfSpec(s: string, c: char)
    ensures IndexOf(s, c).None? ==> forall i :: 0 <= i < |s| ==> s[i] != c
    ensures IndexOf(s, c).Some? ==> s[IndexOf(s, c).value] == c
    ensures IndexOf(s, c).Some? ==> forall i :: 0 <= i < IndexOf(s, c).value ==> s[i] != c
  {
    if |s| > 0 && s[0] != c {
      IndexOfSpec(s[1..], c);
    }
  }

  /** `key.split("_")[1]`: the text between the first `_` and the next `_`
      or the end; `None` (undefined) when the key has no `_`. */
  function SecondSegment(key: string): Option<string> {
    match IndexOf(key, '_')
    case None => None
    case Some(i) =>
      var rest := key[i + 1..];
      match IndexOf(rest, '_')
      case None => Some(rest)
      case Some(j) => Some(rest[..j])
  }

  /** `parseInt(key.split("_")[1])`; `None` stands for NaN (no `_`, or no
      digits where the second segment starts). */
  function Ordinal(key: string): Option<int> {
    match SecondSegment(key)
    case None => None
    case Some(segment) => ParseInt(segment)
  }

  /** The ordinal of every key, in `Object.keys` order. */
  function Ordinals(keys: seq<string>): (os: seq<Option<int>>)
    ensures |os| == |keys|
  {
    seq(|keys|, i requires 0 <= i < |keys| => Ordinal(keys[i]))
  }

  /** Ordinals for which the model's ranking agrees with the code: every key
      has one, or there is a single key, which is never compared. A key
      without an ordinal makes the comparator return NaN, which the sort
      reads as "equal"; the sort order is then engine-defined when the other
      ordinals differ, and keeps key order when they do not. */
  predicate Comparable(os: seq<Option<int>>) {
    |os| <= 1 || forall i :: 0 <= i < |os| ==> os[i].Some?
  }

  /** A key with the ordinal the comparator uses for it. */
  type Entry = (string, int)

  /** Pairs each key with its ordinal; a key without an ordinal is ranked
      as 0, which agrees with the code only for `Comparable` ordinals (see
      `MissingOrdinalRankedAsZero`). */
  function Tag(keys: seq<string>, os: seq<Option<int>>): (es: seq<Entry>)
    requires |os| == |keys|
    ensures |es| == |keys|
  {
    seq(|keys|, i requires 0 <= i < |keys| => (keys[i], if os[i].Some? then os[i].value else 0))
  }

  lemma TagKeys(keys: seq<string>, os: seq<Option<int>>, i: nat)
    requires |os| == |keys| && i < |keys|
    ensures Tag(keys, os)[i].0 == keys[i]
  {
  }

  /** The order the comparator establishes: non-increasing ordinal. */
  predicate SortedDesc(es: seq<Entry>) {
    forall i, j :: 0 <= i < j < |es| ==> es[i].1 >= es[j].1
  }

  /** Inserts `x` before the first entry of no greater ordinal: `x`
      precedes the entries it ties with, as it precedes them in the input. */
  function Insert(x: Entry, sorted: seq<Entry>): (r: seq<Entry>)
    ensures |r| == |sorted| + 1
    ensures multiset(r) == multiset(sorted) + multiset{x}
    ensures r[0] == if |sorted| == 0 || x.1 >= sorted[0].1 then x else sorted[0]
  {
    if |sorted| == 0 || x.1 >= sorted[0].1 then [x] + sorted
    else
      assert sorted == [sorted[0]] + sorted[1..];
      [sorted[0]] + Insert(x, sorted[1..])
  }

  /** Insertion keeps a sorted sequence sorted. */
  lemma {:induction false} InsertSorted(x: Entry, sorted: seq<Entry>)
    requires SortedDesc(sorted)
    ensures SortedDesc(Insert(x, sorted))
  {
    if |sorted| > 0 && x.1 < sorted[0].1 {
      var tail := Insert(x, sorted[1..]);
      InsertSorted(x, sorted[1..]);
      InsertBounded(x, sorted[1..], tail, sorted[0].1);
      assert Insert(x, sorted) == [sorted[0]] + tail;
    }
  }

  /** Every entry of the merged sequence comes from `sorted` or is `x`, so
      a bound on both bounds it. */
  lemma InsertBounded(x: Entry, sorted: seq<Entry>, r: seq<Entry>, bound: int)
    requires multiset(r) == multiset(sorted) + multiset{x}
    requires x.1 <= bound
    ensures (forall i :: 0 <= i < |sorted| ==> sorted[i].1 <= bound) ==>
            forall i :: 0 <= i < |r| ==> r[i].1 <= bound
  {
    if forall i :: 0 <= i < |sorted| ==> sorted[i].1 <= bound {
      forall i | 0 <= i < |r| ensures r[i].1 <= bound {
        assert r[i] in multiset(r);
        if r[i] != x {
          assert r[i] in multiset(sorted);
        }
      }
    }
  }

  /** A stable descending sort by ordinal (insertion sort): a permutation
      of the entries in non-increasing ordinal order. */
  function SortDesc(es: seq<Entry>): (r: seq<Entry>)
    ensures |r| == |es|
    ensures multiset(r) == multiset(es)
    ensures SortedDesc(r)
  {
    if |es| == 0 then []
    else
      assert es == [es[0]] + es[1..];
      InsertSorted(es[0], SortDesc(es[1..]));
      Insert(es[0], SortDesc(es[1..]))
  }

  /** Position `m` holds the first entry of maximal ordinal. */
  predicate IsLatest(es: seq<Entry>, m: nat) {
    && m < |es|
    && (forall j :: 0 <= j < |es| ==> es[j].1 <= es[m].1)
    && (forall j :: 0 <= j < m ==> es[j].1 < es[m].1)
  }

  /** A reference definition of the selection: one pass from the front that
      moves only on a strictly greater ordinal. */
  function FirstMaximum(es: seq<Entry>): (m: nat)
    requires |es| > 0
    ensures IsLatest(es, m)
  {
    if |es| == 1 then 0
    else
      var last := |es| - 1;
      var m := FirstMaximum(es[..last]);
      assert es[..last][m] == es[m];
      assert forall j :: 0 <= j < last ==> es[..last][j] == es[j];
      if es[last].1 > es[m].1 then last else m
  }

  /** At most one position is the first maximum. */
  lemma LatestIsUnique(es: seq<Entry>, a: nat, b: nat)
    requires IsLatest(es, a) && IsLatest(es, b)
    ensures a == b
  {
    assert es[a].1 == es[b].1;
  }

  /** The head of the stable sort is the first entry of maximal ordinal. */
  lemma SortHeadIsLatest(es: seq<Entry>)
    requires |es| > 0
    ensures SortDesc(es)[0] == es[FirstMaximum(es)]
  {
    var m := SortHeadWitness(es);
    LatestIsUnique(es, m, FirstMaximum(es));
  }

  lemma {:induction false} SortHeadWitness(es: seq<Entry>) returns (m: nat)
    requires |es| > 0
    ensures IsLatest(es, m) && SortDesc(es)[0] == es[m]
  {
    var tail := es[1..];
    if |tail| == 0 {
      m := 0;
    } else {
      var m' := SortHeadWitness(tail);
      assert SortDesc(es)[0] ==
        if es[0].1 >= SortDesc(tail)[0].1 then es[0] else SortDesc(tail)[0];
      if es[0].1 >= tail[m'].1 {
        m := 0;
        forall j | 0 <= j < |es| ensures es[j].1 <= es[0].1 {
          if j > 0 {
            assert es[j] == tail[j - 1];
          }
        }
      } else {
        m := m' + 1;
        forall j | 0 <= j < |es| ensures es[j].1 <= es[m].1 {
          if j > 0 {
            assert es[j] == tail[j - 1];
          }
        }
        forall j | 0 <= j < m ensures es[j].1 < es[m].1 {
          if j > 0 {
            assert es[j] == tail[j - 1];
          }
        }
      }
    }
  }

  /** The key at the head of the entries sorted by ordinal; `None` when
      there are no entries. */
  function Select(es: seq<Entry>): (k: Option<string>)
    ensures k.None? <==> |es| == 0
    ensures k.Some? ==> k.value == es[FirstMaximum(es)].0
  {
    if |es| == 0 then None
    else
      SortHeadIsLatest(es);
      Some(SortDesc(es)[0].0)
  }

  /** The selected key: the head of the keys sorted by ordinal, `None`
      (undefined) for an object without keys. When the keys are
      `Comparable` this is the order every engine produces; otherwise the
      model ranks a key without ordinal as 0. */
  function LatestKey(keys: seq<string>): (k: Option<string>)
    ensures k.None? <==> |keys| == 0
  {
    Select(Tag(keys, Ordinals(keys)))
  }

  /** The selected key is the first key of maximal ordinal. */
  lemma LatestKeyIsFirstMaximum(keys: seq<string>)
    requires |keys| > 0
    ensures LatestKey(keys) == Some(keys[FirstMaximum(Tag(keys, Ordinals(keys)))])
    ensures LatestKey(keys).value in keys
  {
    TagKeys(keys, Ordinals(keys), FirstMaximum(Tag(keys, Ordinals(keys))));
  }

  /** Any first maximum of the entries is the one selected. */
  lemma SelectIsLatest(es: seq<Entry>, m: nat)
    requires IsLatest(es, m)
    ensures Select(es) == Some(es[m].0)
  {
    LatestIsUnique(es, m, FirstMaximum(es));
  }

  /** `"scan_10".split("_")[1]` is `"10"` and its ordinal is 10; likewise
      for any prefix without `_` and any numeral. */
  lemma OrdinalOfPrefixedNumeral(prefix: string, n: nat)
    requires forall i :: 0 <= i < |prefix| ==> prefix[i] != '_'
    ensures SecondSegment(prefix + "_" + ShowNat(n)) == Some(ShowNat(n))
    ensures Ordinal(prefix + "_" + ShowNat(n)) == Some(n)
  {
    var key := prefix + "_" + ShowNat(n);
    var d := ShowNat(n);
    assert IndexOf(key, '_') == Some(|prefix|) by {
      IndexOfFirst(key, '_', |prefix|);
    }
    assert key[|prefix| + 1..] == d;
    assert IndexOf(d, '_') == None by {
      NoUnderscoreInNumeral(n);
    }
    ParseIntShowNat(n);
  }

  /** `split("_")[1]` is undefined exactly when the key has no `_`. */
  lemma SecondSegmentNoneIff(key: string)
    ensures SecondSegment(key).None? <==> forall i :: 0 <= i < |key| ==> key[i] != '_'
  {
    IndexOfSpec(key, '_');
  }

  /** For a key `p_m_t` with no `_` in `p` or `m`, `split("_")[1]` is `m`:
      the text between the first `_` and the second, whatever follows. */
  lemma SecondSegmentBetweenUnderscores(p: string, m: string, t: string)
    requires forall i :: 0 <= i < |p| ==> p[i] != '_'
    requires forall i :: 0 <= i < |m| ==> m[i] != '_'
    ensures SecondSegment(p + "_" + m + "_" + t) == Some(m)
  {
    var key := p + "_" + m + "_" + t;
    IndexOfFirst(key, '_', |p|);
    var rest := key[|p| + 1..];
    assert rest == m + "_" + t;
    IndexOfFirst(rest, '_', |m|);
    assert rest[..|m|] == m;
  }

  /** For a key `p_m` with no `_` in `p` or `m`, `split("_")[1]` is `m`. */
  lemma SecondSegmentToEnd(p: string, m: string)
    requires forall i :: 0 <= i < |p| ==> p[i] != '_'
    requires forall i :: 0 <= i < |m| ==> m[i] != '_'
    ensures SecondSegment(p + "_" + m) == Some(m)
  {
    var key := p + "_" + m;
    IndexOfFirst(key, '_', |p|);
    assert key[|p| + 1..] == m;
    IndexOfSpec(m, '_');
  }

  /** `"a_3_7".split("_")[1]` is `"3"`, so its ordinal is 3 and not 7. */
  lemma SecondSegmentExample()
    ensures SecondSegment("a_3_7") == Some("3")
  {
    assert "a_3_7" == "a" + "_" + "3" + "_" + "7";
    SecondSegmentBetweenUnderscores("a", "3", "7");
  }

  lemma IndexOfFirst(s: string, c: char, i: nat)
    requires i < |s| && s[i] == c
    requires forall j :: 0 <= j < i ==> s[j] != c
    ensures IndexOf(s, c) == Some(i)
  {
    IndexOfSpec(s, c);
    var r := IndexOf(s, c);
    assert r.Some? && r.value <= i && s[r.value] == c;
  }

  lemma NoUnderscoreInNumeral(n: nat)
    ensures IndexOf(ShowNat(n), '_') == None
  {
    var d := ShowNat(n);
    IndexOfSpec(d, '_');
    if IndexOf(d, '_').Some? {
      assert false;
    }
  }

  lemma RankScan3()
    ensures Ordinal("scan_3") == Some(3)
  {
    OrdinalOfPrefixedNumeral("scan", 3);
    assert "scan" + "_" + ShowNat(3) == "scan_3";
  }

  lemma RankScan10()
    ensures Ordinal("scan_10") == Some(10)
  {
    assert ShowNat(10) == "10";
    OrdinalOfPrefixedNumeral("scan", 10);
    assert "scan" + "_" + ShowNat(10) == "scan_10";
  }

  lemma RankScan2()
    ensures Ordinal("scan_2") == Some(2)
  {
    OrdinalOfPrefixedNumeral("scan", 2);
    assert "scan" + "_" + ShowNat(2) == "scan_2";
  }

  /** Once the ordinals are known, the selection is a question about the
      tagged entries alone. */
  lemma LatestKeyFromOrdinals(keys: seq<string>, os: seq<Option<int>>, m: nat)
    requires Ordinals(keys) == os
    requires IsLatest(Tag(keys, os), m)
    ensures LatestKey(keys) == Some(keys[m])
  {
    SelectIsLatest(Tag(keys, os), m);
  }

  lemma OrdinalsOfThree(k0: string, k1: string, k2: string, a: int, b: int, c: int)
    requires Ordinal(k0) == Some(a) && Ordinal(k1) == Some(b) && Ordinal(k2) == Some(c)
    ensures Ordinals([k0, k1, k2]) == [Some(a), Some(b), Some(c)]
  {
  }

  /** Three keys whose ordinals are known: the one with the largest
      ordinal is selected, wherever it stands. */
  lemma SelectsLargestOfThree(keys: seq<string>, os: seq<Option<int>>, a: int, b: int, c: int)
    requires |keys| == 3 && os == [Some(a), Some(b), Some(c)] && Ordinals(keys) == os
    requires a < b && c < b
    ensures LatestKey(keys) == Some(keys[1])
  {
    assert IsLatest(Tag(keys, os), 1);
    LatestKeyFromOrdinals(keys, os, 1);
  }

  lemma PicksLargestOrdinal(k0: string, k1: string, k2: string, a: int, b: int, c: int)
    requires Ordinal(k0) == Some(a) && Ordinal(k1) == Some(b) && Ordinal(k2) == Some(c)
    requires a < b && c < b
    ensures Comparable(Ordinals([k0, k1, k2])) && LatestKey([k0, k1, k2]) == Some(k1)
  {
    OrdinalsOfThree(k0, k1, k2, a, b, c);
    SelectsLargestOfThree([k0, k1, k2], [Some(a), Some(b), Some(c)], a, b, c);
  }

  /** Where the model departs from the code: with a key `k0` without an
      ordinal before a key `k1` of positive ordinal, the model ranks `k0` as
      0 and selects `k1`. The code's comparator returns NaN for the pair,
      which the sort reads as "equal", so the stable sort keeps `k0` first
      and the code selects `k0`. `Comparable` excludes such keys. */
  lemma MissingOrdinalRankedAsZero(k0: string, k1: string, b: int)
    requires Ordinal(k0).None? && Ordinal(k1) == Some(b) && b > 0
    ensures !Comparable(Ordinals([k0, k1]))
    ensures LatestKey([k0, k1]) == Some(k1)
  {
    var os := [None, Some(b)];
    assert Ordinals([k0, k1]) == os;
    assert IsLatest(Tag([k0, k1], os), 1);
    LatestKeyFromOrdinals([k0, k1], os, 1);
  }

  lemma RankA()
    ensures Ordinal("a").None?
  {
    SecondSegmentNoneIff("a");
  }

  lemma RankX5()
    ensures Ordinal("x_5") == Some(5)
  {
    OrdinalOfPrefixedNumeral("x", 5);
    assert "x" + "_" + ShowNat(5) == "x_5";
  }

  /** The keys `a`, `x_5`: the model selects `x_5`; the code selects `a`. */
  lemma MissingOrdinalExample()
    ensures !Comparable(Ordinals(["a", "x_5"]))
    ensures LatestKey(["a", "x_5"]) == Some("x_5")
  {
    RankA();
    RankX5();
    MissingOrdinalRankedAsZero("a", "x_5", 5);
  }

  /** Keys `scan_3`, `scan_10`, `scan_2` select `scan_10`: the ordinals
      compare as numbers, not as text. */
  lemma NumericNotLexicographic()
    ensures Comparable(Ordinals(["scan_3", "scan_10", "scan_2"]))
    ensures LatestKey(["scan_3", "scan_10", "scan_2"]) == Some("scan_10")
  {
    RankScan3();
    RankScan10();
    RankScan2();
    PicksLargestOrdinal("scan_3", "scan_10", "scan_2", 3, 10, 2);
  }
}
