/** The record-level rules of the command-line driver (execcheck/cli.py):
    loading the indicator-of-compromise (IOC) set, matching a record's
    fields against it, the `--only-ioc-matches` filter, the descending sort
    by risk score and the low/med/high risk-tier filter. */
module Cli {

  import opened Values
  import opened Text
  import opened Numerals

  // ---------------------------------------------------------------------
  // load_iocs (lines 17-26), over the lines of the file

  /** The IOC set of `lines`: each line stripped and lower-cased, empty
      results dropped. */
  function IocSet(lines: seq<string>): set<string>
  {
    if lines == [] then {}
    else
      var val := Normalise(lines[|lines| - 1]);
      IocSet(lines[..|lines| - 1]) + (if val != "" then {val} else {})
  }

  /** `load_iocs`: one pass over the lines, adding every non-empty
      normalised line. */
  method LoadIocs(lines: seq<string>) returns (iocs: set<string>)
    ensures iocs == IocSet(lines)
  {
    iocs := {};
    for i := 0 to |lines|
      invariant iocs == IocSet(lines[..i])
    {
      var val := Normalise(lines[i]);
      if val != "" {
        iocs := iocs + {val};
      }
      assert lines[..i + 1][..i] == lines[..i];
    }
    assert lines[..|lines|] == lines;
  }

  /** The IOC set is exactly the non-empty normalised lines. */
  lemma IocSetMembers(lines: seq<string>)
    ensures forall x :: x in IocSet(lines) <==> x != "" && exists i :: 0 <= i < |lines| && Normalise(lines[i]) == x
  {
    IocSetComplete(lines);
    IocSetSound(lines);
  }

  /** Every non-empty normalised line is loaded. */
  lemma {:induction false} IocSetComplete(lines: seq<string>)
    ensures forall i :: 0 <= i < |lines| && Normalise(lines[i]) != "" ==> Normalise(lines[i]) in IocSet(lines)
  {
    if lines != [] {
      var init := lines[..|lines| - 1];
      var val := Normalise(lines[|lines| - 1]);
      var before := IocSet(init);
      IocSetComplete(init);
      assert IocSet(lines) == before + (if val != "" then {val} else {});
      forall i | 0 <= i < |init|
        ensures lines[i] == init[i]
      {
      }
    }
  }

  /** Only non-empty normalised lines are loaded. */
  lemma {:induction false} IocSetSound(lines: seq<string>)
    ensures forall x :: x in IocSet(lines) ==> x != "" && exists i :: 0 <= i < |lines| && Normalise(lines[i]) == x
  {
    if lines != [] {
      var init := lines[..|lines| - 1];
      var val := Normalise(lines[|lines| - 1]);
      var before := IocSet(init);
      IocSetSound(init);
      assert IocSet(lines) == before + (if val != "" then {val} else {});
      forall x | x in IocSet(lines)
        ensures exists i :: 0 <= i < |lines| && Normalise(lines[i]) == x
      {
        if x in before {
          var i :| 0 <= i < |init| && Normalise(init[i]) == x;
          assert lines[i] == init[i];
        } else {
          assert Normalise(lines[|lines| - 1]) == x;
        }
      }
    }
  }

  /** Every loaded IOC is already in normal form: stripping and
      lower-casing it again changes nothing. */
  lemma IocsAreNormalised(lines: seq<string>)
    ensures forall x :: x in IocSet(lines) ==> x != "" && Normalise(x) == x
  {
    IocSetMembers(lines);
    forall x | x in IocSet(lines)
      ensures Normalise(x) == x
    {
      var i :| 0 <= i < |lines| && Normalise(lines[i]) == x;
      NormaliseIdempotent(lines[i]);
    }
  }

  // ---------------------------------------------------------------------
  // match_iocs (lines 28-43)

  /** A record's `(key, value)` pairs in the dictionary's iteration order. */
  type Items = seq<(string, Value)>

  /** A dictionary has each key once. */
  predicate DistinctKeys(items: Items)
  {
    forall i, j :: 0 <= i < j < |items| ==> items[i].0 != items[j].0
  }

  /** `[str(x).lower() for x in v]` for a list value. */
  function LowerAll(xs: seq<string>): (r: seq<string>)
    ensures |r| == |xs|
  {
    seq(|xs|, i requires 0 <= i < |xs| => Lower(xs[i]))
  }

  /** The elements of a sequence, as a set. */
  function Elements(xs: seq<string>): set<string>
  {
    set x | x in xs
  }

  /** `k` repeated `n` times. */
  function Repeat(k: string, n: nat): (r: seq<string>)
    ensures |r| == n
    ensures forall i :: 0 <= i < n ==> r[i] == k
  {
    seq(n, _ => k)
  }

  /** What one pair contributes: nothing for None; for a list, the key once
      per IOC found among the lower-cased elements; for a scalar, the key
      once when its lower-cased text is an IOC. */
  function PairMatches(k: string, v: Value, iocs: set<string>): (r: seq<string>)
    ensures forall i :: 0 <= i < |r| ==> r[i] == k
  {
    match v
    case Null => []
    case List(xs) => Repeat(k, |iocs * Elements(LowerAll(xs))|)
    case _ => if Lower(ValueText(v)) in iocs then [k] else []
  }

  /** The matched keys of a record, pair by pair in iteration order. */
  function Matches(items: Items, iocs: set<string>): seq<string>
  {
    if items == [] then []
    else
      var (k, v) := items[|items| - 1];
      Matches(items[..|items| - 1], iocs) + PairMatches(k, v, iocs)
  }

  /** `match_iocs`. */
  method MatchIocs(items: Items, iocs: set<string>) returns (matched: seq<string>)
    ensures matched == Matches(items, iocs)
  {
    matched := [];
    for i := 0 to |items|
      invariant matched == Matches(items[..i], iocs)
    {
      var (k, v) := items[i];
      assert items[..i + 1][..i] == items[..i];
      if v.Null? {
        assert PairMatches(k, v, iocs) == [];
        assert matched + [] == matched;
        continue;
      }
      if v.List? {
        var lowered := LowerAll(v.items);
        matched := MatchList(k, lowered, iocs, matched);
      } else {
        if Lower(ValueText(v)) in iocs {
          matched := matched + [k];
        } else {
          assert matched + [] == matched;
        }
      }
    }
    assert items[..|items|] == items;
  }

  /** The inner loop over the IOC set for one list value: the key is
      appended once for each IOC that occurs in the lowered list. */
  method MatchList(k: string, lowered: seq<string>, iocs: set<string>, matched0: seq<string>)
    returns (matched: seq<string>)
    ensures matched == matched0 + Repeat(k, |iocs * Elements(lowered)|)
  {
    matched := matched0;
    var rest := iocs;
    ghost var seen: set<string> := {};
    assert matched0 + Repeat(k, 0) == matched0;
    while rest != {}
      invariant rest + seen == iocs && rest !! seen
      invariant matched == matched0 + Repeat(k, |seen * Elements(lowered)|)
      decreases |rest|
    {
      var ioc :| ioc in rest;
      CountStep(seen, Elements(lowered), ioc);
      if ioc in lowered {
        RepeatSnoc(k, |seen * Elements(lowered)|);
        ConcatAssociates(matched0, Repeat(k, |seen * Elements(lowered)|), [k]);
        matched := matched + [k];
      }
      rest := rest - {ioc};
      seen := seen + {ioc};
    }
  }

  /** Counting one more IOC adds one exactly when it is found. */
  lemma CountStep(seen: set<string>, found: set<string>, ioc: string)
    requires ioc !in seen
    ensures |(seen + {ioc}) * found| == |seen * found| + (if ioc in found then 1 else 0)
  {
    if ioc in found {
      assert (seen + {ioc}) * found == seen * found + {ioc};
    } else {
      assert (seen + {ioc}) * found == seen * found;
    }
  }

  lemma RepeatSnoc(k: string, n: nat)
    ensures Repeat(k, n) + [k] == Repeat(k, n + 1)
  {
  }

  /** Every reported key is the key of a pair of the record whose value is
      not None. */
  lemma {:induction false} MatchesFromRow(items: Items, iocs: set<string>)
    ensures forall x :: x in Matches(items, iocs) ==> exists i :: 0 <= i < |items| && items[i].0 == x && !items[i].1.Null?
  {
    if items != [] {
      var init := items[..|items| - 1];
      var (k, v) := items[|items| - 1];
      MatchesFromRow(init, iocs);
      forall x | x in Matches(items, iocs)
        ensures exists i :: 0 <= i < |items| && items[i].0 == x && !items[i].1.Null?
      {
        if x in Matches(init, iocs) {
          var i :| 0 <= i < |init| && init[i].0 == x && !init[i].1.Null?;
          assert items[i] == init[i];
        } else {
          assert x in PairMatches(k, v, iocs);
        }
      }
    }
  }

  /** The matched keys follow the record's pairs in order. */
  lemma {:induction false} MatchesConcat(a: Items, b: Items, iocs: set<string>)
    ensures Matches(a + b, iocs) == Matches(a, iocs) + Matches(b, iocs)
    decreases |b|
  {
    if b == [] {
      assert a + b == a;
    } else {
      var init := b[..|b| - 1];
      assert (a + b)[..|a + b| - 1] == a + init;
      assert (a + b)[|a + b| - 1] == b[|b| - 1];
      MatchesConcat(a, init, iocs);
    }
  }

  /** In a dictionary (each key once), the key of pair `i` is reported
      exactly as often as its own value matches: never for None, once or not
      at all for a scalar, and once per IOC present for a list. */
  lemma {:induction false} MatchCount(items: Items, iocs: set<string>, i: nat)
    requires DistinctKeys(items) && i < |items|
    ensures multiset(Matches(items, iocs))[items[i].0] == |PairMatches(items[i].0, items[i].1, iocs)|
    decreases |items|
  {
    var n := |items| - 1;
    var init := items[..n];
    var (k, v) := items[n];
    var x := items[i].0;
    assert multiset(Matches(items, iocs)) == multiset(Matches(init, iocs)) + multiset(PairMatches(k, v, iocs));
    if i == n {
      NotMatched(init, iocs, x);
      assert multiset(PairMatches(k, v, iocs))[x] == |PairMatches(k, v, iocs)| by {
        OnlyKey(PairMatches(k, v, iocs), k);
      }
    } else {
      assert init[i] == items[i];
      MatchCount(init, iocs, i);
      assert k != x;
      assert multiset(PairMatches(k, v, iocs))[x] == 0;
    }
  }

  /** A key no pair carries is never reported. */
  lemma {:induction false} NotMatched(items: Items, iocs: set<string>, x: string)
    requires forall i :: 0 <= i < |items| ==> items[i].0 != x
    ensures multiset(Matches(items, iocs))[x] == 0
  {
    MatchesFromRow(items, iocs);
    assert x !in Matches(items, iocs);
  }

  /** A sequence of one repeated key holds that key as often as it is long. */
  lemma {:induction false} OnlyKey(s: seq<string>, k: string)
    requires forall i :: 0 <= i < |s| ==> s[i] == k
    ensures multiset(s)[k] == |s|
  {
    if s != [] {
      OnlyKey(s[1..], k);
      assert s == [s[0]] + s[1..];
    }
  }

  /** A scalar value's key is reported once when its lower-cased text is an
      IOC and not at all otherwise. */
  lemma ScalarMatch(items: Items, iocs: set<string>, i: nat)
    requires DistinctKeys(items) && i < |items|
    requires !items[i].1.Null? && !items[i].1.List?
    ensures multiset(Matches(items, iocs))[items[i].0] == if Lower(ValueText(items[i].1)) in iocs then 1 else 0
  {
    MatchCount(items, iocs, i);
  }

  /** A None value's key is never reported. */
  lemma NullNeverMatches(items: Items, iocs: set<string>, i: nat)
    requires DistinctKeys(items) && i < |items| && items[i].1.Null?
    ensures items[i].0 !in Matches(items, iocs)
  {
    MatchCount(items, iocs, i);
  }

  /** With no IOCs loaded nothing matches, so the caller's shortcut for an
      empty set (execcheck/cli.py:128) agrees with calling the matcher. */
  lemma {:induction false} NothingMatchesEmptySet(items: Items)
    ensures Matches(items, {}) == []
  {
    if items != [] {
      NothingMatchesEmptySet(items[..|items| - 1]);
      var (k, v) := items[|items| - 1];
      if v.List? {
        var none: set<string> := {};
        assert none * Elements(LowerAll(v.items)) == {};
      }
    }
  }

  /** A list value's key is reported once per IOC among its lower-cased
      elements, so it can repeat. */
  lemma ListMatch(items: Items, iocs: set<string>, i: nat)
    requires DistinctKeys(items) && i < |items| && items[i].1.List?
    ensures multiset(Matches(items, iocs))[items[i].0] == |iocs * Elements(LowerAll(items[i].1.items))|
  {
    MatchCount(items, iocs, i);
  }

  // ---------------------------------------------------------------------
  // The `--only-ioc-matches` filter (line 134)

  /** Every record carries its `ioc_match` flag. */
  predicate AllFlagged(rows: seq<Row>)
  {
    forall i :: 0 <= i < |rows| ==> "ioc_match" in rows[i]
  }

  /** `[r for r in enriched if r["ioc_match"]]`. */
  function OnlyIocMatches(rows: seq<Row>): seq<Row>
    requires AllFlagged(rows)
  {
    if rows == [] then []
    else
      var last := rows[|rows| - 1];
      OnlyIocMatches(rows[..|rows| - 1]) + (if Truthy(last["ioc_match"]) then [last] else [])
  }

  /** The filter keeps exactly the records that matched, in their order. */
  lemma {:induction false} OnlyIocMatchesKeeps(rows: seq<Row>)
    requires AllFlagged(rows)
    ensures forall r: Row :: r in OnlyIocMatches(rows) <==> r in rows && Truthy(r["ioc_match"])
    ensures |OnlyIocMatches(rows)| <= |rows|
  {
    if rows != [] {
      var init := rows[..|rows| - 1];
      OnlyIocMatchesKeeps(init);
      assert rows == init + [rows[|rows| - 1]];
    }
  }

  // ---------------------------------------------------------------------
  // The descending sort by risk score (line 140)

  /** `x.get("risk_score", 0)` is an integer: the driver stores the score
      of every record before sorting. */
  predicate RiskSortable(r: Row)
  {
    "risk_score" in r ==> r["risk_score"].Int?
  }

  /** The sort key, `x.get("risk_score", 0)`. */
  function RiskKey(r: Row): int
  {
    match Get(r, "risk_score")
    case Int(i) => i
    case _ => 0
  }

  predicate SortedByRisk(s: seq<Row>)
  {
    forall i, j :: 0 <= i < j < |s| ==> RiskKey(s[i]) >= RiskKey(s[j])
  }

  /** Places `x` after every record with a higher score and before the
      first one with the same or a lower score. */
  function Insert(x: Row, s: seq<Row>): seq<Row>
  {
    if s == [] || RiskKey(s[0]) <= RiskKey(x) then [x] + s
    else [s[0]] + Insert(x, s[1..])
  }

  /** `list.sort(key=..., reverse=True)`, which is stable: records with
      equal scores keep their order. */
  function SortByRisk(rows: seq<Row>): seq<Row>
    requires forall i :: 0 <= i < |rows| ==> RiskSortable(rows[i])
  {
    if rows == [] then [] else Insert(rows[0], SortByRisk(rows[1..]))
  }

  /** The records of `s` with score `k`, in order. */
  function WithScore(s: seq<Row>, k: int): seq<Row>
  {
    if s == [] then []
    else (if RiskKey(s[0]) == k then [s[0]] else []) + WithScore(s[1..], k)
  }

  /** Insertion adds `x` and keeps every other record. */
  lemma {:induction false} InsertPerm(x: Row, s: seq<Row>)
    ensures multiset(Insert(x, s)) == multiset(s) + multiset{x}
    ensures |Insert(x, s)| == |s| + 1
  {
    if s != [] && RiskKey(s[0]) > RiskKey(x) {
      InsertPerm(x, s[1..]);
      assert s == [s[0]] + s[1..];
    }
  }

  lemma {:induction false} InsertSorted(x: Row, s: seq<Row>)
    requires SortedByRisk(s)
    ensures SortedByRisk(Insert(x, s))
  {
    if s == [] || RiskKey(s[0]) <= RiskKey(x) {
      ConsSorted(x, s);
    } else {
      var r := Insert(x, s[1..]);
      InsertSorted(x, s[1..]);
      InsertFrom(x, s[1..]);
      forall j | 0 <= j < |r|
        ensures RiskKey(r[j]) <= RiskKey(s[0])
      {
        if r[j] != x {
          var m :| 0 <= m < |s[1..]| && s[1..][m] == r[j];
          assert s[m + 1] == r[j];
        }
      }
      ConsSorted(s[0], r);
    }
  }

  /** A record scoring at least every record of a sorted sequence can be put
      in front of it. */
  lemma ConsSorted(y: Row, t: seq<Row>)
    requires SortedByRisk(t)
    requires forall j :: 0 <= j < |t| ==> RiskKey(t[j]) <= RiskKey(y)
    ensures SortedByRisk([y] + t)
  {
    assert forall j :: 0 < j < |[y] + t| ==> ([y] + t)[j] == t[j - 1];
  }

  /** Every record of `Insert(x, s)` is `x` or a record of `s`. */
  lemma {:induction false} InsertFrom(x: Row, s: seq<Row>)
    ensures forall i :: 0 <= i < |Insert(x, s)| ==> Insert(x, s)[i] == x || Insert(x, s)[i] in s
  {
    if s != [] && RiskKey(s[0]) > RiskKey(x) {
      InsertFrom(x, s[1..]);
    }
  }

  /** Inserting into a sorted sequence keeps the records of equal score in
      order, with `x` first among its own score. */
  lemma {:induction false} InsertStable(x: Row, s: seq<Row>, k: int)
    ensures WithScore(Insert(x, s), k) == (if RiskKey(x) == k then [x] else []) + WithScore(s, k)
  {
    if s == [] || RiskKey(s[0]) <= RiskKey(x) {
      WithScoreCons(x, s, k);
    } else {
      var r := Insert(x, s[1..]);
      InsertStable(x, s[1..], k);
      WithScoreCons(s[0], r, k);
      WithScoreCons(s[0], s[1..], k);
      assert [s[0]] + s[1..] == s;
    }
  }

  /** Unfolds `WithScore` once, at a record put in front. */
  lemma WithScoreCons(y: Row, t: seq<Row>, k: int)
    ensures WithScore([y] + t, k) == (if RiskKey(y) == k then [y] else []) + WithScore(t, k)
  {
    assert ([y] + t)[1..] == t;
  }

  lemma ConcatAssociates<T>(x: seq<T>, y: seq<T>, z: seq<T>)
    ensures (x + y) + z == x + (y + z)
  {
  }

  /** The sort yields a permutation of the records in non-increasing score
      order, and records of equal score keep their input order. */
  lemma {:induction false} SortByRiskCorrect(rows: seq<Row>)
    requires forall i :: 0 <= i < |rows| ==> RiskSortable(rows[i])
    ensures SortedByRisk(SortByRisk(rows))
    ensures multiset(SortByRisk(rows)) == multiset(rows)
    ensures |SortByRisk(rows)| == |rows|
    ensures forall k :: WithScore(SortByRisk(rows), k) == WithScore(rows, k)
  {
    if rows != [] {
      var rest := SortByRisk(rows[1..]);
      SortByRiskCorrect(rows[1..]);
      InsertSorted(rows[0], rest);
      InsertPerm(rows[0], rest);
      assert rows == [rows[0]] + rows[1..];
      forall k
        ensures WithScore(SortByRisk(rows), k) == WithScore(rows, k)
      {
        InsertStable(rows[0], rest, k);
      }
    }
  }

  // ---------------------------------------------------------------------
  // The risk-tier filter of table output (lines 143-153)

  datatype RiskLevel = Low | Med | High | All

  /** `thresholds.get("yellow", 5)`. */
  function MinYellow(thresholds: map<string, int>): int
  {
    if "yellow" in thresholds then thresholds["yellow"] else 5
  }

  /** `thresholds.get("red", 10)`. */
  function MinRed(thresholds: map<string, int>): int
  {
    if "red" in thresholds then thresholds["red"] else 10
  }

  /** Whether a score belongs to a tier. */
  predicate InTier(score: int, level: RiskLevel, yellow: int, red: int)
  {
    match level
    case Low => score < yellow
    case Med => yellow <= score < red
    case High => score >= red
    case All => true
  }

  /** Every record has an integer `risk_score` (`r["risk_score"]` is read
      directly, so a missing one would raise). */
  predicate AllScored(rows: seq<Row>)
  {
    forall i :: 0 <= i < |rows| ==> "risk_score" in rows[i] && rows[i]["risk_score"].Int?
  }

  /** The tier filter: "all" leaves the records alone; the other levels
      keep the records whose score lies in the tier. */
  function TierFilter(rows: seq<Row>, level: RiskLevel, yellow: int, red: int): seq<Row>
    requires level.All? || AllScored(rows)
  {
    if level.All? || rows == [] then rows
    else
      var last := rows[|rows| - 1];
      TierFilter(rows[..|rows| - 1], level, yellow, red)
      + (if InTier(RiskKey(last), level, yellow, red) then [last] else [])
  }

  /** With no `color_thresholds` section the tiers are split at 5 and 10. */
  lemma DefaultThresholds()
    ensures MinYellow(map[]) == 5 && MinRed(map[]) == 10
  {
  }

  /** The filter keeps exactly the records whose score lies in the tier. */
  lemma {:induction false} TierFilterKeeps(rows: seq<Row>, level: RiskLevel, yellow: int, red: int)
    requires AllScored(rows)
    ensures forall r: Row :: r in TierFilter(rows, level, yellow, red) <==>
              r in rows && InTier(RiskKey(r), level, yellow, red)
  {
    if !level.All? && rows != [] {
      var init := rows[..|rows| - 1];
      TierFilterKeeps(init, level, yellow, red);
      assert rows == init + [rows[|rows| - 1]];
    }
  }

  /** Filtering commutes with concatenation, so the surviving records
      keep their relative order. */
  lemma {:induction false} TierFilterConcat(a: seq<Row>, b: seq<Row>, level: RiskLevel, yellow: int, red: int)
    requires AllScored(a) && AllScored(b)
    ensures AllScored(a + b)
    ensures TierFilter(a + b, level, yellow, red) == TierFilter(a, level, yellow, red) + TierFilter(b, level, yellow, red)
    decreases |b|
  {
    if level.All? {
    } else if b == [] {
      assert a + b == a;
    } else {
      var init := b[..|b| - 1];
      assert (a + b)[..|a + b| - 1] == a + init;
      assert (a + b)[|a + b| - 1] == b[|b| - 1];
      TierFilterConcat(a, init, level, yellow, red);
      ConcatAssociates(TierFilter(a, level, yellow, red), TierFilter(init, level, yellow, red),
                       if InTier(RiskKey(b[|b| - 1]), level, yellow, red) then [b[|b| - 1]] else []);
    }
  }

  /** When yellow <= red, the three tiers split the scores: every score lies
      in exactly one of low, med and high. */
  lemma TiersPartition(score: int, yellow: int, red: int)
    requires yellow <= red
    ensures InTier(score, Low, yellow, red) || InTier(score, Med, yellow, red) || InTier(score, High, yellow, red)
    ensures !(InTier(score, Low, yellow, red) && InTier(score, Med, yellow, red))
    ensures !(InTier(score, Low, yellow, red) && InTier(score, High, yellow, red))
    ensures !(InTier(score, Med, yellow, red) && InTier(score, High, yellow, red))
  {
  }
}
