/** The additive risk scorer `score_entry` (execcheck/scorer.py). Four
    guarded rules, then one test per configured bitmask, each adding its
    weight to the score and one line to the trace. */
module Scorer {

  import opened Values
  import opened Numerals
  import Translate

  /** A `custom_flag_mask` key: an integer, or a string read with
      `int(key, 16)`. */
  datatype MaskKey = IntMask(n: nat) | HexMask(text: string)

  predicate ValidMask(m: MaskKey)
  {
    m.HexMask? ==> IsHexText(m.text)
  }

  /** The bitmask a key stands for. */
  function MaskValue(m: MaskKey): nat
    requires ValidMask(m)
  {
    match m
    case IntMask(n) => n
    case HexMask(t) => ParseHex(t)
  }

  /** The `scoring` section of the configuration; `customFlagMask` lists the
      dictionary's items in its iteration order. */
  datatype ScoringWeights = ScoringWeights(
    unsigned: int,
    missingTeamId: int,
    overrideBlocked: int,
    vtMalicious: int,
    customFlagMask: seq<(MaskKey, int)>)

  predicate ValidWeights(w: ScoringWeights)
  {
    forall i :: 0 <= i < |w.customFlagMask| ==> ValidMask(w.customFlagMask[i].0)
  }

  /** An entry the scorer can read: its policy label is hashable (so the set
      membership test is defined) and its scan flags are not a negative
      integer. */
  predicate WellFormedEntry(entry: Row)
  {
    && !Get(entry, "policy_match_label").List?
    && !(Get(entry, "scan_flags").Int? && Get(entry, "scan_flags").i < 0)
  }

  /** A rule that fired: its trace label and the points it added. */
  datatype Firing = Firing(rule: string, points: int)

  /** The trace line of a firing, `f"{rule} (+{points})"`. */
  function Line(f: Firing): string
  {
    f.rule + " (+" + Decimal(f.points) + ")"
  }

  /** The trace lines of the firings, in order. */
  function Lines(fs: seq<Firing>): seq<string>
  {
    if fs == [] then [] else Lines(fs[..|fs| - 1]) + [Line(fs[|fs| - 1])]
  }

  /** One trace line per firing, at the same position. */
  lemma {:induction false} LinesMatchFirings(fs: seq<Firing>)
    ensures |Lines(fs)| == |fs|
    ensures forall i :: 0 <= i < |fs| ==> Lines(fs)[i] == Line(fs[i])
  {
    if fs != [] {
      var init, last := fs[..|fs| - 1], fs[|fs| - 1];
      LinesMatchFirings(init);
      var before := Lines(init);
      assert Lines(fs) == before + [Line(last)];
      forall i | 0 <= i < |fs|
        ensures Lines(fs)[i] == Line(fs[i])
      {
        if i < |init| {
          assert fs[i] == init[i];
          assert before[i] == Line(init[i]);
        } else {
          assert i == |init|;
          assert (before + [Line(last)])[|init|] == Line(last);
        }
      }
    }
  }

  /** The sum of the points of the firings. */
  function Total(fs: seq<Firing>): int
  {
    if fs == [] then 0 else Total(fs[..|fs| - 1]) + fs[|fs| - 1].points
  }

  /** The override rule's condition: the label is "Override" or
      "Override: Block", or the numeric code is 3. */
  predicate OverrideBlocked(entry: Row)
  {
    var given := Get(entry, "policy_match_label");
    given == Str("Override") || given == Str("Override: Block") || Get(entry, "policy_match") == Int(3)
  }

  /** The number of fixed rules. */
  const RuleCount: nat := 4

  /** Fixed rule `k`, in the order they are tested: whether it fires for
      the entry, and the firing it records. The first three need a non-zero
      weight; the VirusTotal rule needs only the entry flag (the weight
      attribute always exists on the configuration). */
  function Rule(entry: Row, w: ScoringWeights, k: nat): (bool, Firing)
    requires k < RuleCount
  {
    if k == 0 then (!Truthy(Get(entry, "is_signed")) && w.unsigned != 0, Firing("unsigned", w.unsigned))
    else if k == 1 then (!Truthy(Get(entry, "team_identifier")) && w.missingTeamId != 0,
                         Firing("missing_team_id", w.missingTeamId))
    else if k == 2 then (OverrideBlocked(entry) && w.overrideBlocked != 0,
                         Firing("override_blocked", w.overrideBlocked))
    else (Truthy(Get(entry, "vt_malicious")), Firing("vt_malicious", w.vtMalicious))
  }

  /** The firings of the first `n` fixed rules. */
  function FixedFirings(entry: Row, w: ScoringWeights, n: nat): seq<Firing>
    requires n <= RuleCount
  {
    if n == 0 then []
    else FixedFirings(entry, w, n - 1) + (if Rule(entry, w, n - 1).0 then [Rule(entry, w, n - 1).1] else [])
  }

  /** The firings of all four fixed rules. */
  function RuleFirings(entry: Row, w: ScoringWeights): seq<Firing>
  {
    FixedFirings(entry, w, RuleCount)
  }

  /** The trace label of a mask rule, `f"flag {hex(mask)}"`. */
  function MaskRule(mask: nat): string
  {
    "flag " + Hex(mask)
  }

  /** The mask rules that fire for `flags`, in configuration order. */
  function MaskFirings(flags: nat, masks: seq<(MaskKey, int)>): seq<Firing>
    requires forall i :: 0 <= i < |masks| ==> ValidMask(masks[i].0)
  {
    if masks == [] then []
    else
      var last := masks[|masks| - 1];
      MaskFirings(flags, masks[..|masks| - 1])
      + (if And(flags, MaskValue(last.0)) != 0 then [Firing(MaskRule(MaskValue(last.0)), last.1)] else [])
  }

  /** `entry.get("scan_flags", 0) or 0` as the integer the masks are tested
      against, or None when it is not an integer (then no mask is tested).
      Python's `True` is the integer 1. */
  function ScanFlags(entry: Row): Option<nat>
    requires WellFormedEntry(entry)
  {
    var v := Get(entry, "scan_flags");
    if !Truthy(v) then Some(0)
    else match v
      case Int(i) => Some(i)
      case Bool(_) => Some(1)
      case _ => None
  }

  /** Every rule that fires, in order: the four fixed rules, then the masks. */
  function Firings(entry: Row, w: ScoringWeights): seq<Firing>
    requires WellFormedEntry(entry) && ValidWeights(w)
  {
    RuleFirings(entry, w)
    + (match ScanFlags(entry)
       case Some(flags) => MaskFirings(flags, w.customFlagMask)
       case None => [])
  }

  /** `score_entry`: the score is the sum of the points of the rules that
      fire and the trace has one line per firing, in rule order. */
  method ScoreEntry(entry: Row, w: ScoringWeights) returns (score: int, trace: seq<string>)
    requires WellFormedEntry(entry) && ValidWeights(w)
    ensures score == Total(Firings(entry, w))
    ensures trace == Lines(Firings(entry, w))
  {
    score, trace := FixedRuleScore(entry, w);

    var raw := Get(entry, "scan_flags");
    var flags := if Truthy(raw) then raw else Int(0);
    if (flags.Int? || flags.Bool?) && |w.customFlagMask| > 0 {
      var bits: nat := if flags.Int? then flags.i else 1;
      assert ScanFlags(entry) == Some(bits);
      score, trace := ApplyMasks(bits, w.customFlagMask, score, trace);
      TotalConcat(RuleFirings(entry, w), MaskFirings(bits, w.customFlagMask));
      LinesConcat(RuleFirings(entry, w), MaskFirings(bits, w.customFlagMask));
    } else {
      assert w.customFlagMask == [] || ScanFlags(entry) == None;
      assert Firings(entry, w) == RuleFirings(entry, w) + [];
      assert RuleFirings(entry, w) + [] == RuleFirings(entry, w);
    }
  }

  /** The four fixed rules of `score_entry` (lines 11-33), in order. */
  method FixedRuleScore(entry: Row, w: ScoringWeights) returns (score: int, trace: seq<string>)
    ensures score == Total(RuleFirings(entry, w))
    ensures trace == Lines(RuleFirings(entry, w))
  {
    score := 0;
    trace := [];
    // `done` counts the rules applied so far; score0 and trace0 hold the
    // state before the current one.
    ghost var score0, trace0, done := score, trace, 0;
    score, trace := Charge(!Truthy(Get(entry, "is_signed")) && w.unsigned != 0,
                           Firing("unsigned", w.unsigned), score, trace);
    RuleStep(entry, w, done, score0, trace0, score, trace);
    done := done + 1;
    score0, trace0 := score, trace;
    score, trace := Charge(!Truthy(Get(entry, "team_identifier")) && w.missingTeamId != 0,
                           Firing("missing_team_id", w.missingTeamId), score, trace);
    RuleStep(entry, w, done, score0, trace0, score, trace);
    done := done + 1;
    score0, trace0 := score, trace;
    var policyLabel := Get(entry, "policy_match_label");
    var policyCode := Get(entry, "policy_match");
    score, trace := Charge((policyLabel == Str("Override") || policyLabel == Str("Override: Block") || policyCode == Int(3))
                           && w.overrideBlocked != 0,
                           Firing("override_blocked", w.overrideBlocked), score, trace);
    RuleStep(entry, w, done, score0, trace0, score, trace);
    done := done + 1;
    score0, trace0 := score, trace;
    score, trace := Charge(Truthy(Get(entry, "vt_malicious")), Firing("vt_malicious", w.vtMalicious), score, trace);
    RuleStep(entry, w, done, score0, trace0, score, trace);
  }

  /** `score += points; trace.append(f"{rule} (+{points})")` when the rule
      fires, nothing otherwise. */
  method Charge(fires: bool, f: Firing, score0: int, trace0: seq<string>) returns (score: int, trace: seq<string>)
    ensures score == score0 + (if fires then f.points else 0)
    ensures trace == trace0 + (if fires then [Line(f)] else [])
  {
    score, trace := score0, trace0;
    if fires {
      score := score + f.points;
      trace := trace + [f.rule + " (+" + Decimal(f.points) + ")"];
    }
  }

  /** The mask loop of `score_entry` (lines 39-43), continuing from the
      score and trace the fixed rules left. */
  method ApplyMasks(bits: nat, masks: seq<(MaskKey, int)>, score0: int, trace0: seq<string>)
    returns (score: int, trace: seq<string>)
    requires forall i :: 0 <= i < |masks| ==> ValidMask(masks[i].0)
    ensures score == score0 + Total(MaskFirings(bits, masks))
    ensures trace == trace0 + Lines(MaskFirings(bits, masks))
  {
    score, trace := score0, trace0;
    assert masks[..0] == [] && trace0 + [] == trace0;
    for i := 0 to |masks|
      invariant score == score0 + Total(MaskFirings(bits, masks[..i]))
      invariant trace == trace0 + Lines(MaskFirings(bits, masks[..i]))
    {
      var (key, points) := masks[i];
      var bitmask := if key.HexMask? then ParseHex(key.text) else key.n;
      MaskStep(bits, masks, i);
      ghost var done := MaskFirings(bits, masks[..i]);
      if And(bits, bitmask) != 0 {
        score := score + points;
        trace := trace + ["flag " + Hex(bitmask) + " (+" + Decimal(points) + ")"];
        ghost var f := Firing(MaskRule(bitmask), points);
        TotalConcat(done, [f]);
        LinesConcat(done, [f]);
        ConcatAssociates(trace0, Lines(done), [Line(f)]);
      } else {
        assert MaskFirings(bits, masks[..i + 1]) == done + [];
        assert done + [] == done;
      }
    }
    assert masks[..|masks|] == masks;
  }

  /** Testing fixed rule `k` adds its weight and its line when it fires. */
  lemma RuleStep(entry: Row, w: ScoringWeights, k: nat, score0: int, trace0: seq<string>, score: int, trace: seq<string>)
    requires k < RuleCount
    requires score0 == Total(FixedFirings(entry, w, k)) && trace0 == Lines(FixedFirings(entry, w, k))
    requires score == score0 + (if Rule(entry, w, k).0 then Rule(entry, w, k).1.points else 0)
    requires trace == trace0 + (if Rule(entry, w, k).0 then [Line(Rule(entry, w, k).1)] else [])
    ensures score == Total(FixedFirings(entry, w, k + 1)) && trace == Lines(FixedFirings(entry, w, k + 1))
  {
    var prev := FixedFirings(entry, w, k);
    var (fires, f) := Rule(entry, w, k);
    if fires {
      assert (prev + [f])[..|prev|] == prev;
    } else {
      assert prev + [] == prev;
    }
  }

  /** Points and lines of at most one firing. */
  lemma Short(fs: seq<Firing>)
    requires |fs| <= 1
    ensures Total(fs) == if fs == [] then 0 else fs[0].points
    ensures Lines(fs) == if fs == [] then [] else [Line(fs[0])]
  {
    if fs != [] {
      assert fs[..0] == [];
    }
  }

  lemma {:induction false} LinesConcat(a: seq<Firing>, b: seq<Firing>)
    ensures Lines(a + b) == Lines(a) + Lines(b)
    decreases |b|
  {
    if b == [] {
      assert a + b == a;
    } else {
      assert (a + b)[..|a + b| - 1] == a + b[..|b| - 1];
      LinesConcat(a, b[..|b| - 1]);
      ConcatAssociates(Lines(a), Lines(b[..|b| - 1]), [Line(b[|b| - 1])]);
    }
  }

  lemma ConcatAssociates<T>(x: seq<T>, y: seq<T>, z: seq<T>)
    ensures (x + y) + z == x + (y + z)
  {
  }

  /** One more turn of the mask loop. */
  lemma MaskStep(flags: nat, masks: seq<(MaskKey, int)>, i: nat)
    requires forall j :: 0 <= j < |masks| ==> ValidMask(masks[j].0)
    requires i < |masks|
    ensures MaskFirings(flags, masks[..i + 1]) == MaskFirings(flags, masks[..i])
              + (if And(flags, MaskValue(masks[i].0)) != 0 then [Firing(MaskRule(MaskValue(masks[i].0)), masks[i].1)] else [])
  {
    assert masks[..i + 1][..i] == masks[..i];
  }

  lemma {:induction false} TotalConcat(a: seq<Firing>, b: seq<Firing>)
    ensures Total(a + b) == Total(a) + Total(b)
    decreases |b|
  {
    if b == [] {
      assert a + b == a;
    } else {
      assert (a + b)[..|a + b| - 1] == a + b[..|b| - 1];
      TotalConcat(a, b[..|b| - 1]);
    }
  }

  /** The position of each fixed rule in the order they are tested. */
  function RuleRank(rule: string): nat
  {
    if rule == "unsigned" then 0
    else if rule == "missing_team_id" then 1
    else if rule == "override_blocked" then 2
    else 3
  }

  /** Fixed rule `k` records the label of rank `k`. */
  lemma RuleRankOf(entry: Row, w: ScoringWeights, k: nat)
    requires k < RuleCount
    ensures RuleRank(Rule(entry, w, k).1.rule) == k
  {
  }

  /** The first `n` fixed rules fire in rank order, each at most once. */
  lemma {:induction false} FixedOrder(entry: Row, w: ScoringWeights, n: nat)
    requires n <= RuleCount
    ensures |FixedFirings(entry, w, n)| <= n
    ensures forall i :: 0 <= i < |FixedFirings(entry, w, n)| ==> RuleRank(FixedFirings(entry, w, n)[i].rule) < n
    ensures forall i, j :: 0 <= i < j < |FixedFirings(entry, w, n)| ==>
              RuleRank(FixedFirings(entry, w, n)[i].rule) < RuleRank(FixedFirings(entry, w, n)[j].rule)
  {
    if n > 0 {
      FixedOrder(entry, w, n - 1);
      RuleRankOf(entry, w, n - 1);
      var prev := FixedFirings(entry, w, n - 1);
      var rule := Rule(entry, w, n - 1);
      var extra := if rule.0 then [rule.1] else [];
      assert FixedFirings(entry, w, n) == prev + extra;
      RanksExtend(prev, extra, n);
    }
  }

  /** Appending at most one firing of rank `n - 1` to firings of strictly
      increasing ranks below `n - 1` keeps the ranks strictly increasing. */
  lemma RanksExtend(prev: seq<Firing>, extra: seq<Firing>, n: nat)
    requires n > 0 && |prev| <= n - 1 && |extra| <= 1
    requires forall i :: 0 <= i < |prev| ==> RuleRank(prev[i].rule) < n - 1
    requires forall i, j :: 0 <= i < j < |prev| ==> RuleRank(prev[i].rule) < RuleRank(prev[j].rule)
    requires forall i :: 0 <= i < |extra| ==> RuleRank(extra[i].rule) == n - 1
    ensures |prev + extra| <= n
    ensures forall i :: 0 <= i < |prev + extra| ==> RuleRank((prev + extra)[i].rule) < n
    ensures forall i, j :: 0 <= i < j < |prev + extra| ==>
              RuleRank((prev + extra)[i].rule) < RuleRank((prev + extra)[j].rule)
  {
    var all := prev + extra;
    forall i, j | 0 <= i < j < |all|
      ensures RuleRank(all[i].rule) < RuleRank(all[j].rule)
    {
      assert all[i] == prev[i];
      if j >= |prev| {
        assert all[j] == extra[j - |prev|];
      } else {
        assert all[j] == prev[j];
      }
    }
  }

  /** Fixed rule `k`'s firing is among the first `n` exactly when `k < n`
      and the rule fires. */
  lemma {:induction false} FixedMember(entry: Row, w: ScoringWeights, n: nat, k: nat)
    requires n <= RuleCount && k < RuleCount
    ensures Rule(entry, w, k).1 in FixedFirings(entry, w, n) <==> k < n && Rule(entry, w, k).0
  {
    if n > 0 {
      FixedMember(entry, w, n - 1, k);
      RuleRankOf(entry, w, k);
      RuleRankOf(entry, w, n - 1);
    }
  }

  /** Rule order: the fixed rules appear in the order unsigned,
      missing_team_id, override_blocked, vt_malicious, each at most once,
      before every mask line. */
  lemma RuleOrder(entry: Row, w: ScoringWeights)
    requires WellFormedEntry(entry) && ValidWeights(w)
    ensures forall i, j :: 0 <= i < j < |RuleFirings(entry, w)| ==>
              RuleRank(RuleFirings(entry, w)[i].rule) < RuleRank(RuleFirings(entry, w)[j].rule)
    ensures |RuleFirings(entry, w)| <= 4
    ensures Firings(entry, w)[..|RuleFirings(entry, w)|] == RuleFirings(entry, w)
    ensures forall i :: |RuleFirings(entry, w)| <= i < |Firings(entry, w)| ==>
              |Firings(entry, w)[i].rule| >= 5 && Firings(entry, w)[i].rule[..5] == "flag "
  {
    FixedOrder(entry, w, RuleCount);
    var rs := RuleFirings(entry, w);
    match ScanFlags(entry)
    case Some(flags) =>
      var ms := MaskFirings(flags, w.customFlagMask);
      MaskRulesAreFlagLines(flags, w.customFlagMask);
      assert Firings(entry, w) == rs + ms;
      assert forall i :: |rs| <= i < |rs + ms| ==> (rs + ms)[i] == ms[i - |rs|];
    case None =>
      assert Firings(entry, w) == rs + [];
  }

  lemma {:induction false} MaskRulesAreFlagLines(flags: nat, masks: seq<(MaskKey, int)>)
    requires forall i :: 0 <= i < |masks| ==> ValidMask(masks[i].0)
    ensures forall i :: 0 <= i < |MaskFirings(flags, masks)| ==>
              |MaskFirings(flags, masks)[i].rule| >= 5 && MaskFirings(flags, masks)[i].rule[..5] == "flag "
  {
    if masks != [] {
      MaskRulesAreFlagLines(flags, masks[..|masks| - 1]);
    }
  }

  /** Each fixed rule fires exactly under its condition. The first three
      never fire with weight 0; a missing `is_signed` or `team_identifier`
      counts as falsy. */
  lemma FixedRules(entry: Row, w: ScoringWeights)
    ensures Firing("unsigned", w.unsigned) in RuleFirings(entry, w) <==>
              !Truthy(Get(entry, "is_signed")) && w.unsigned != 0
    ensures Firing("missing_team_id", w.missingTeamId) in RuleFirings(entry, w) <==>
              !Truthy(Get(entry, "team_identifier")) && w.missingTeamId != 0
    ensures Firing("override_blocked", w.overrideBlocked) in RuleFirings(entry, w) <==>
              OverrideBlocked(entry) && w.overrideBlocked != 0
    ensures Firing("vt_malicious", w.vtMalicious) in RuleFirings(entry, w) <==>
              Truthy(Get(entry, "vt_malicious"))
    ensures "is_signed" !in entry && w.unsigned != 0 ==> Firing("unsigned", w.unsigned) in RuleFirings(entry, w)
    ensures "team_identifier" !in entry && w.missingTeamId != 0 ==>
              Firing("missing_team_id", w.missingTeamId) in RuleFirings(entry, w)
  {
    FixedMember(entry, w, RuleCount, 0);
    FixedMember(entry, w, RuleCount, 1);
    FixedMember(entry, w, RuleCount, 2);
    FixedMember(entry, w, RuleCount, 3);
  }

  /** The VirusTotal rule is gated on the entry flag alone: with weight 0 it
      still adds the line "vt_malicious (+0)". */
  lemma VirusTotalIgnoresWeight(entry: Row, w: ScoringWeights)
    requires WellFormedEntry(entry) && ValidWeights(w)
    requires Truthy(Get(entry, "vt_malicious")) && w.vtMalicious == 0
    ensures "vt_malicious (+0)" in Lines(Firings(entry, w))
  {
    var f := Firing("vt_malicious", 0);
    VirusTotalFires(entry, w);
    FixedRuleFires(entry, w, f);
    LineOfMember(Firings(entry, w), f);
    VirusTotalLine();
  }

  /** The VirusTotal rule's firing is among the fixed rules' whenever the
      entry says malicious. */
  lemma VirusTotalFires(entry: Row, w: ScoringWeights)
    requires Truthy(Get(entry, "vt_malicious"))
    ensures Firing("vt_malicious", w.vtMalicious) in RuleFirings(entry, w)
  {
    FixedMember(entry, w, RuleCount, 3);
  }

  lemma VirusTotalLine()
    ensures Line(Firing("vt_malicious", 0)) == "vt_malicious (+0)"
  {
    assert Decimal(0) == "0";
  }

  /** A fixed rule that fires is among all the firings. */
  lemma FixedRuleFires(entry: Row, w: ScoringWeights, f: Firing)
    requires WellFormedEntry(entry) && ValidWeights(w)
    requires f in RuleFirings(entry, w)
    ensures f in Firings(entry, w)
  {
    var rs := RuleFirings(entry, w);
    var fs := Firings(entry, w);
    assert fs[..|rs|] == rs;
  }

  /** Every firing contributes its line to the trace. */
  lemma LineOfMember(fs: seq<Firing>, f: Firing)
    requires f in fs
    ensures Line(f) in Lines(fs)
  {
    LinesMatchFirings(fs);
    var i :| 0 <= i < |fs| && fs[i] == f;
    assert Lines(fs)[i] == Line(f);
  }

  /** The mask loop tests each pair on its own, in configuration order. */
  lemma {:induction false} MaskFiringsConcat(flags: nat, a: seq<(MaskKey, int)>, b: seq<(MaskKey, int)>)
    requires forall i :: 0 <= i < |a| ==> ValidMask(a[i].0)
    requires forall i :: 0 <= i < |b| ==> ValidMask(b[i].0)
    ensures forall i :: 0 <= i < |a + b| ==> ValidMask((a + b)[i].0)
    ensures MaskFirings(flags, a + b) == MaskFirings(flags, a) + MaskFirings(flags, b)
    decreases |b|
  {
    if b == [] {
      assert a + b == a;
    } else {
      var init := b[..|b| - 1];
      assert (a + b)[..|a + b| - 1] == a + init;
      assert (a + b)[|a + b| - 1] == b[|b| - 1];
      MaskFiringsConcat(flags, a, init);
    }
  }

  /** One pair fires exactly when its mask meets the flags. */
  lemma OneMask(flags: nat, m: MaskKey, points: int)
    requires ValidMask(m)
    ensures MaskFirings(flags, [(m, points)]) ==
            if And(flags, MaskValue(m)) != 0 then [Firing(MaskRule(MaskValue(m)), points)] else []
  {
    assert [(m, points)][..0] == [];
  }

  /** No mask fires when the scan flags are missing, falsy or not an
      integer. */
  lemma NoMaskWithoutFlags(entry: Row, w: ScoringWeights)
    requires WellFormedEntry(entry) && ValidWeights(w)
    requires !Truthy(Get(entry, "scan_flags")) || Get(entry, "scan_flags").Str? || Get(entry, "scan_flags").List?
    ensures Firings(entry, w) == RuleFirings(entry, w)
  {
    if ScanFlags(entry) == Some(0) {
      NoMaskMeetsZero(w.customFlagMask);
    }
  }

  lemma {:induction false} NoMaskMeetsZero(masks: seq<(MaskKey, int)>)
    requires forall i :: 0 <= i < |masks| ==> ValidMask(masks[i].0)
    ensures MaskFirings(0, masks) == []
  {
    if masks != [] {
      NoMaskMeetsZero(masks[..|masks| - 1]);
    }
  }

  /** A hexadecimal-string key and the integer key of the same value fire
      alike. */
  lemma HexKeyMatchesIntKey(flags: nat, n: nat, points: int)
    ensures MaskFirings(flags, [(HexMask(Hex(n)), points)]) == MaskFirings(flags, [(IntMask(n), points)])
  {
    HexRoundTrip(n);
    OneMask(flags, HexMask(Hex(n)), points);
    OneMask(flags, IntMask(n), points);
  }

  /** Reading labels produced by the translator, the override rule's
      condition is exactly "the policy code is 3": the translator never
      produces "Override: Block", and only the code 3 is labelled "Override". */
  lemma OverrideFromTranslatedLabel(entry: Row, code: Value)
    requires !code.List?
    requires Get(entry, "policy_match") == code
    requires Get(entry, "policy_match_label") == Str(Translate.PolicyMatchLabel(code))
    ensures OverrideBlocked(entry) <==> code == Int(3)
  {
  }

  /** The sample weights: 5/3/7/10 and masks 0x2000 -> 4, 0x800 -> 2. */
  const SampleWeights := ScoringWeights(5, 3, 7, 10, [(IntMask(0x2000), 4), (IntMask(0x800), 2)])

  const UnsignedEntry: Row := map[
    "is_signed" := Bool(false),
    "team_identifier" := Null,
    "policy_match_label" := Str("Override: Block"),
    "vt_malicious" := Bool(true),
    "scan_flags" := Int(0x2800)
  ]

  const SampleRules := [Firing("unsigned", 5), Firing("missing_team_id", 3),
                         Firing("override_blocked", 7), Firing("vt_malicious", 10)]

  const SampleMasks := [Firing(MaskRule(0x2000), 4), Firing(MaskRule(0x800), 2)]

  lemma SampleRulesFire()
    ensures WellFormedEntry(UnsignedEntry) && ScanFlags(UnsignedEntry) == Some(0x2800)
    ensures RuleFirings(UnsignedEntry, SampleWeights) == SampleRules
  {
    var e := UnsignedEntry;
    assert Get(e, "is_signed") == Bool(false);
    assert Get(e, "team_identifier") == Null;
    assert Get(e, "policy_match_label") == Str("Override: Block");
    assert Get(e, "vt_malicious") == Bool(true);
    assert Get(e, "scan_flags") == Int(0x2800);
    assert OverrideBlocked(e);
  }

  /** Flags 0x2800 carry the bits of both sample masks, so both fire. */
  lemma SampleMasksFire(flags: nat)
    requires flags == 0x2800
    ensures ValidWeights(SampleWeights)
    ensures MaskFirings(flags, SampleWeights.customFlagMask) == SampleMasks
  {
    SampleMaskBits(flags);
    MasksFire(flags, SampleWeights.customFlagMask);
  }

  /** `0x2800 & 0x2000` and `0x2800 & 0x800` keep their masks. */
  lemma SampleMaskBits(flags: nat)
    requires flags == 0x2800
    ensures And(flags, 0x2000) == 0x2000 && And(flags, 0x800) == 0x800
  {
    SampleBits();
    AndPow2(flags, 13);
    AndPow2(flags, 11);
  }

  lemma SampleBits()
    ensures Pow2(13) == 0x2000 && Pow2(11) == 0x800
    ensures Bit(0x2800, 13) && Bit(0x2800, 11)
  {
  }

  /** Two masks that both meet the flags both fire, in order. */
  lemma MasksFire(flags: nat, masks: seq<(MaskKey, int)>)
    requires |masks| == 2 && masks[0].0.IntMask? && masks[1].0.IntMask?
    requires And(flags, masks[0].0.n) != 0 && And(flags, masks[1].0.n) != 0
    ensures MaskFirings(flags, masks) == [Firing(MaskRule(masks[0].0.n), masks[0].1), Firing(MaskRule(masks[1].0.n), masks[1].1)]
  {
    assert masks[..1] == [masks[0]];
    OneMask(flags, masks[0].0, masks[0].1);
    assert MaskFirings(flags, masks) == MaskFirings(flags, masks[..1]) + [Firing(MaskRule(masks[1].0.n), masks[1].1)];
  }

  /** The sample entry fires the four fixed rules, then both masks. */
  lemma SampleFirings()
    ensures WellFormedEntry(UnsignedEntry) && ValidWeights(SampleWeights)
    ensures Firings(UnsignedEntry, SampleWeights) == SampleRules + SampleMasks
  {
    SampleRulesFire();
    SampleMasksFire(0x2800);
  }

  lemma SampleTotal()
    ensures Total(SampleRules + SampleMasks) == 31
  {
    var rs, ms := SampleRules, SampleMasks;
    TotalConcat(rs, ms);
    assert Total(rs[..1]) == 5 by { assert rs[..1][..0] == []; }
    assert Total(rs[..2]) == 8 by { assert rs[..2][..1] == rs[..1]; }
    assert Total(rs[..3]) == 15 by { assert rs[..3][..2] == rs[..2]; }
    assert Total(rs) == 25;
    assert Total(ms[..1]) == 4 by { assert ms[..1][..0] == []; }
    assert Total(ms) == 6;
  }

  /** Every rule fires: 5 + 3 + 7 + 10 + 4 + 2 = 31, with six trace lines. */
  lemma SampleEveryRule()
    ensures WellFormedEntry(UnsignedEntry) && ValidWeights(SampleWeights)
    ensures Total(Firings(UnsignedEntry, SampleWeights)) == 31
    ensures |Lines(Firings(UnsignedEntry, SampleWeights))| == 6
    ensures "override_blocked (+7)" in Lines(Firings(UnsignedEntry, SampleWeights))
  {
    SampleFirings();
    SampleTotal();
    var fs := SampleRules + SampleMasks;
    LinesMatchFirings(fs);
    assert fs[2] == Firing("override_blocked", 7);
    assert Lines(fs)[2] == Line(Firing("override_blocked", 7));
    OverrideLine();
  }

  lemma OverrideLine()
    ensures Line(Firing("override_blocked", 7)) == "override_blocked (+7)"
  {
    assert Decimal(7) == "7";
  }

  const BlockedEntry: Row := map[
    "is_signed" := Bool(true),
    "team_identifier" := Str("TEAM"),
    "policy_match_label" := Str("Override: Block"),
    "vt_malicious" := Bool(false),
    "scan_flags" := Int(0)
  ]

  /** A signed entry with a team whose policy label is "Override: Block":
      only the override rule fires, so the score is its weight. */
  lemma SampleOverrideBlocked()
    ensures WellFormedEntry(BlockedEntry) && ValidWeights(SampleWeights)
    ensures Total(Firings(BlockedEntry, SampleWeights)) == SampleWeights.overrideBlocked
    ensures Lines(Firings(BlockedEntry, SampleWeights)) == ["override_blocked (+7)"]
  {
    var e := BlockedEntry;
    assert Get(e, "is_signed") == Bool(true);
    assert Get(e, "team_identifier") == Str("TEAM");
    assert Get(e, "policy_match_label") == Str("Override: Block");
    assert Get(e, "vt_malicious") == Bool(false);
    assert Get(e, "scan_flags") == Int(0);
    assert OverrideBlocked(e);
    assert RuleFirings(e, SampleWeights) == [Firing("override_blocked", 7)];
    NoMaskWithoutFlags(e, SampleWeights);
    OverrideLine();
    assert Lines([Firing("override_blocked", 7)]) == [Line(Firing("override_blocked", 7))];
  }

  const TrustedEntry: Row := map[
    "is_signed" := Bool(true),
    "team_identifier" := Str("TEAM"),
    "policy_match_label" := Str(""),
    "vt_malicious" := Bool(false),
    "scan_flags" := Int(0)
  ]

  /** Nothing fires for a signed entry with a team, no override and no
      flags. */
  lemma SampleNothingFires()
    ensures WellFormedEntry(TrustedEntry) && ValidWeights(SampleWeights)
    ensures Firings(TrustedEntry, SampleWeights) == []
    ensures Total(Firings(TrustedEntry, SampleWeights)) == 0 && Lines(Firings(TrustedEntry, SampleWeights)) == []
  {
    var e := TrustedEntry;
    assert Get(e, "is_signed") == Bool(true);
    assert Get(e, "team_identifier") == Str("TEAM");
    assert Get(e, "policy_match_label") == Str("");
    assert Get(e, "policy_match") == Null;
    assert Get(e, "vt_malicious") == Bool(false);
    assert Get(e, "scan_flags") == Int(0);
    assert RuleFirings(e, SampleWeights) == [];
    NoMaskWithoutFlags(e, SampleWeights);
  }

  const CodeOnlyEntry: Row := map["policy_match" := Int(3)]

  /** Only the numeric code 3 set and only the override weight non-zero:
      the score is 7 and the trace is ["override_blocked (+7)"]. */
  lemma SampleOverrideByCode()
    ensures WellFormedEntry(CodeOnlyEntry) && ValidWeights(ScoringWeights(0, 0, 7, 0, []))
    ensures Total(Firings(CodeOnlyEntry, ScoringWeights(0, 0, 7, 0, []))) == 7
    ensures Lines(Firings(CodeOnlyEntry, ScoringWeights(0, 0, 7, 0, []))) == ["override_blocked (+7)"]
  {
    var e := CodeOnlyEntry;
    var w := ScoringWeights(0, 0, 7, 0, []);
    assert Get(e, "policy_match") == Int(3);
    assert Get(e, "vt_malicious") == Null && Get(e, "scan_flags") == Null;
    assert RuleFirings(e, w) == [Firing("override_blocked", 7)];
    NoMaskWithoutFlags(e, w);
    OverrideLine();
    assert Lines([Firing("override_blocked", 7)]) == [Line(Firing("override_blocked", 7))];
  }
}
