/** Numeric codes of the scan table turned into human labels, and the scan
    flag bitmask turned into flag names (execcheck/translate.py). */
module Translate {

  import opened Values
  import opened Numerals

  /** The dictionary key a field value looks up as. Python's `True` and
      `False` hash and compare equal to `1` and `0`, so they find those
      entries; strings and None find nothing. A list cannot be looked up at
      all (it is unhashable), which the callers below exclude. */
  function LookupKey(v: Value): Option<int>
    requires !v.List?
  {
    match v
    case Int(i) => Some(i)
    case Bool(b) => Some(if b then 1 else 0)
    case _ => None
  }

  const MalwareLabels: map<int, string> := map[
    0 := "No matching policy",
    1 := "Signed by Apple",
    2 := "App Store-signed",
    3 := "Developer ID-signed",
    4 := "Notarized",
    7 := "Unsigned executable",
    9 := "Unknown or no prior scan",
    10 := "Revoked certificate",
    11 := "Weak signature detected",
    12 := "Legacy approval override"
  ]

  const PolicyLabels: map<int, string> := map[
    0 := "No Match",
    1 := "Allow",
    2 := "Deny",
    3 := "Override",
    4 := "Quarantine",
    5 := "Translocation",
    6 := "Developer ID Match",
    7 := "Hardcoded Allow"
  ]

  /** `translate_malware_result`: total, with "Unknown" for every code that
      is not one of the ten listed ones. */
  function MalwareResultLabel(code: Value): (l: string)
    requires !code.List?
    ensures l == "Unknown" <==>
              !(LookupKey(code).Some? && LookupKey(code).value in {0, 1, 2, 3, 4, 7, 9, 10, 11, 12})
    ensures l != "Unknown" ==> l in MalwareLabels.Values
  {
    var key := LookupKey(code);
    if key.Some? && key.value in MalwareLabels then MalwareLabels[key.value] else "Unknown"
  }

  /** `translate_policy_match`: total, "Unmapped" outside 0..7, and the only
      code labelled "Override" is 3. */
  function PolicyMatchLabel(code: Value): (l: string)
    requires !code.List?
    ensures l == "Unmapped" <==> !(LookupKey(code).Some? && 0 <= LookupKey(code).value <= 7)
    ensures l == "Override" <==> LookupKey(code) == Some(3)
    ensures l != "Override: Block"
  {
    var key := LookupKey(code);
    if key.Some? && key.value in PolicyLabels then PolicyLabels[key.value] else "Unmapped"
  }

  /** No two listed codes share a label, so each label names one code. */
  lemma LabelsIdentifyCodes(a: int, b: int)
    ensures a in MalwareLabels && b in MalwareLabels && MalwareLabels[a] == MalwareLabels[b] ==> a == b
    ensures a in PolicyLabels && b in PolicyLabels && PolicyLabels[a] == PolicyLabels[b] ==> a == b
  {
  }

  /** What `decode_flags` returns: one of two sentinel strings, or a list. */
  datatype Decoded = Missing | NoFlags | Names(names: seq<string>)

  /** The number of known scan flag bits. */
  const FlagCount: nat := 8

  /** The mask of the `k`-th known flag, in declaration order. */
  function FlagMask(k: nat): nat
    requires k < FlagCount
  {
    if k == 0 then 0x001
    else if k == 1 then 0x002
    else if k == 2 then 0x004
    else if k == 3 then 0x008
    else if k == 4 then 0x010
    else if k == 5 then 0x040
    else if k == 6 then 0x200
    else 0x400
  }

  /** The name of the `k`-th known flag. */
  function FlagName(k: nat): string
    requires k < FlagCount
  {
    if k == 0 then "fScanMigrated"
    else if k == 1 then "Web Download (quarantine=2)"
    else if k == 2 then "fScanUserApproved"
    else if k == 3 then "fScanUserOverride"
    else if k == 4 then "fScanPackage"
    else if k == 5 then "fScanDeveloperOverride"
    else if k == 6 then "fScanSuccessfulEvaluation"
    else "fScanBlockedOverride"
  }

  /** The bit each known mask consists of. */
  function FlagBit(k: nat): (b: nat)
    requires k < FlagCount
    ensures FlagMask(k) == Pow2(b)
  {
    if k == 0 then 0
    else if k == 1 then 1
    else if k == 2 then 2
    else if k == 3 then 3
    else if k == 4 then 4
    else if k == 5 then 6
    else if k == 6 then 9
    else 10
  }

  /** The union of the known bits. */
  const KnownBits: nat := 0x65F

  /** Names of the first `n` known flags whose mask meets `v`, in
      declaration order. */
  function NamesUpTo(v: nat, n: nat): seq<string>
    requires n <= FlagCount
  {
    if n == 0 then []
    else NamesUpTo(v, n - 1) + (if And(v, FlagMask(n - 1)) != 0 then [FlagName(n - 1)] else [])
  }

  /** The table-driven meaning of `decode_flags`. */
  function DecodeSpec(flagValue: Option<nat>): Decoded
  {
    match flagValue
    case None => Missing
    case Some(v) => if v == 0 then NoFlags else Names(NamesUpTo(v, FlagCount))
  }

  /** `decode_flags`: two sentinels, then one test per known bit, appending
      that bit's name when it is set. */
  method DecodeFlags(flagValue: Option<nat>) returns (r: Decoded)
    ensures r == DecodeSpec(flagValue)
  {
    if flagValue.None? {
      return Missing;
    }
    var v := flagValue.value;
    if v == 0 {
      return NoFlags;
    }
    var flags: seq<string> := [];
    if And(v, 0x001) != 0 {
      flags := flags + ["fScanMigrated"];
    }
    assert flags == NamesUpTo(v, 1);
    if And(v, 0x002) != 0 {
      flags := flags + ["Web Download (quarantine=2)"];
    }
    assert flags == NamesUpTo(v, 2);
    if And(v, 0x004) != 0 {
      flags := flags + ["fScanUserApproved"];
    }
    assert flags == NamesUpTo(v, 3);
    if And(v, 0x008) != 0 {
      flags := flags + ["fScanUserOverride"];
    }
    assert flags == NamesUpTo(v, 4);
    if And(v, 0x010) != 0 {
      flags := flags + ["fScanPackage"];
    }
    assert flags == NamesUpTo(v, 5);
    if And(v, 0x040) != 0 {
      flags := flags + ["fScanDeveloperOverride"];
    }
    assert flags == NamesUpTo(v, 6);
    if And(v, 0x200) != 0 {
      flags := flags + ["fScanSuccessfulEvaluation"];
    }
    assert flags == NamesUpTo(v, 7);
    if And(v, 0x400) != 0 {
      flags := flags + ["fScanBlockedOverride"];
    }
    assert flags == NamesUpTo(v, 8);
    r := Names(flags);
  }

  /** No two known flags share a name. */
  lemma FlagNamesDistinct(i: nat, j: nat)
    requires i < j < FlagCount
    ensures FlagName(i) != FlagName(j)
  {
  }

  /** A name is listed exactly when its mask meets `v`, and only known names
      are listed. */
  lemma NamesUpToMembers(v: nat, n: nat)
    requires n <= FlagCount
    ensures forall k :: 0 <= k < n ==> (FlagName(k) in NamesUpTo(v, n) <==> And(v, FlagMask(k)) != 0)
    ensures forall name :: name in NamesUpTo(v, n) ==> exists k :: 0 <= k < n && FlagName(k) == name
  {
    NamesUpToFlags(v, n);
    NamesUpToNames(v, n);
  }

  /** A flag's name is listed exactly when its bit is set. */
  lemma {:induction false} NamesUpToFlags(v: nat, n: nat)
    requires n <= FlagCount
    ensures forall k :: 0 <= k < n ==> (FlagName(k) in NamesUpTo(v, n) <==> And(v, FlagMask(k)) != 0)
  {
    if n > 0 {
      NamesUpToFlags(v, n - 1);
      var prev := NamesUpTo(v, n - 1);
      var extra := if And(v, FlagMask(n - 1)) != 0 then [FlagName(n - 1)] else [];
      assert NamesUpTo(v, n) == prev + extra;
      forall k | 0 <= k < n
        ensures FlagName(k) in NamesUpTo(v, n) <==> And(v, FlagMask(k)) != 0
      {
        if k < n - 1 {
          FlagNamesDistinct(k, n - 1);
          assert FlagName(k) !in extra;
        } else {
          NamesUpToNames(v, n - 1);
          if FlagName(k) in prev {
            var j :| 0 <= j < n - 1 && FlagName(j) == FlagName(k);
            FlagNamesDistinct(j, k);
          }
        }
      }
    }
  }

  /** Only flag names are listed. */
  lemma {:induction false} NamesUpToNames(v: nat, n: nat)
    requires n <= FlagCount
    ensures forall name :: name in NamesUpTo(v, n) ==> exists k :: 0 <= k < n && FlagName(k) == name
  {
    if n > 0 {
      NamesUpToNames(v, n - 1);
      var prev := NamesUpTo(v, n - 1);
      var extra := if And(v, FlagMask(n - 1)) != 0 then [FlagName(n - 1)] else [];
      assert NamesUpTo(v, n) == prev + extra;
      forall name | name in NamesUpTo(v, n)
        ensures exists k :: 0 <= k < n && FlagName(k) == name
      {
        if name !in prev {
          assert FlagName(n - 1) == name;
        }
      }
    }
  }

  /** No name is listed twice. */
  lemma {:induction false} NamesUpToDistinct(v: nat, n: nat)
    requires n <= FlagCount
    ensures forall i, j :: 0 <= i < j < |NamesUpTo(v, n)| ==> NamesUpTo(v, n)[i] != NamesUpTo(v, n)[j]
  {
    if n > 0 {
      NamesUpToDistinct(v, n - 1);
      NamesUpToMembers(v, n - 1);
      forall k | 0 <= k < n - 1 ensures FlagName(k) != FlagName(n - 1) {
        FlagNamesDistinct(k, n - 1);
      }
      var prev := NamesUpTo(v, n - 1);
      assert FlagName(n - 1) !in prev;
      assert NamesUpTo(v, n)[..|prev|] == prev;
    }
  }

  /** `decode_flags` on a non-zero value lists exactly the names of the known
      bits set in it, each once, in declaration order (the list is built by
      walking the flags in that order). */
  lemma DecodeListsSetBits(v: nat)
    requires v != 0
    ensures DecodeSpec(Some(v)).Names?
    ensures forall k :: 0 <= k < FlagCount ==>
              (FlagName(k) in DecodeSpec(Some(v)).names <==> Bit(v, FlagBit(k)))
    ensures forall name :: name in DecodeSpec(Some(v)).names ==>
              exists k :: 0 <= k < FlagCount && FlagName(k) == name
    ensures forall i, j :: 0 <= i < j < |DecodeSpec(Some(v)).names| ==>
              DecodeSpec(Some(v)).names[i] != DecodeSpec(Some(v)).names[j]
  {
    NamesUpToMembers(v, FlagCount);
    NamesUpToDistinct(v, FlagCount);
    forall k | 0 <= k < FlagCount ensures (And(v, FlagMask(k)) != 0 <==> Bit(v, FlagBit(k))) {
      AndPow2(v, FlagBit(k));
    }
  }

  /** Testing a known mask reads that flag's bit. */
  lemma FlagMaskReadsBit(v: nat, k: nat)
    requires k < FlagCount
    ensures And(v, FlagMask(k)) != 0 <==> Bit(v, FlagBit(k))
  {
    AndPow2(v, FlagBit(k));
  }

  /** Every known bit is set in `KnownBits`. */
  lemma KnownBitsCoverFlags(k: nat)
    requires k < FlagCount
    ensures Bit(KnownBits, FlagBit(k))
  {
    if k == 0 { assert Bit(KnownBits, 0); }
    else if k == 1 { assert Bit(KnownBits, 1); }
    else if k == 2 { assert Bit(KnownBits, 2); }
    else if k == 3 { assert Bit(KnownBits, 3); }
    else if k == 4 { assert Bit(KnownBits, 4); }
    else if k == 5 { assert Bit(KnownBits, 6); }
    else if k == 6 { assert Bit(KnownBits, 9); }
    else { assert Bit(KnownBits, 10); }
  }

  lemma {:induction false} NamesUpToKnownBits(v: nat, n: nat)
    requires n <= FlagCount
    ensures NamesUpTo(v, n) == NamesUpTo(And(v, KnownBits), n)
  {
    if n > 0 {
      KnownBitsCoverFlags(n - 1);
      FlagMaskReadsBit(v, n - 1);
      FlagMaskReadsBit(And(v, KnownBits), n - 1);
      AndBit(v, KnownBits, FlagBit(n - 1));
      NamesUpToKnownBits(v, n - 1);
    }
  }

  lemma {:induction false} NoNamesForZero(n: nat)
    requires n <= FlagCount
    ensures NamesUpTo(0, n) == []
  {
    if n > 0 {
      NoNamesForZero(n - 1);
    }
  }

  /** Unknown bits are ignored: for non-zero values the result depends only
      on `v & 0x65F`, and a value with no known bit decodes to an empty list
      rather than to "no flags". */
  lemma DecodeIgnoresUnknownBits(v: nat, w: nat)
    requires v != 0 && w != 0 && And(v, KnownBits) == And(w, KnownBits)
    ensures DecodeSpec(Some(v)) == DecodeSpec(Some(w))
    ensures And(v, KnownBits) == 0 ==> DecodeSpec(Some(v)) == Names([])
  {
    NamesUpToKnownBits(v, FlagCount);
    NamesUpToKnownBits(w, FlagCount);
    if And(v, KnownBits) == 0 {
      NoNamesForZero(FlagCount);
    }
  }

  /** The sentinels, and one-bit and unknown-bit examples. */
  lemma DecodeExamples()
    ensures DecodeSpec(None) == Missing
    ensures DecodeSpec(Some(0)) == NoFlags
    ensures DecodeSpec(Some(0x004)) == Names(["fScanUserApproved"])
    ensures DecodeSpec(Some(0x800)) == Names([])
  {
    OneFlagNames(0x004);
    HighFlagNames(0x800);
  }

  /** Flags from `m` up to `n` whose masks miss `v` add no names. */
  lemma {:induction false} NamesUpToUnchanged(v: nat, m: nat, n: nat)
    requires m <= n <= FlagCount
    requires forall k :: m <= k < n ==> And(v, FlagMask(k)) == 0
    ensures NamesUpTo(v, n) == NamesUpTo(v, m)
    decreases n
  {
    if n > m {
      NamesUpToUnchanged(v, m, n - 1);
    }
  }

  /** `0x004` decodes to the name of its one known bit. */
  lemma OneFlagNames(v: nat)
    requires v == 0x004
    ensures NamesUpTo(v, FlagCount) == ["fScanUserApproved"]
  {
    forall k | 0 <= k < FlagCount
      ensures And(v, FlagMask(k)) != 0 <==> k == 2
    {
      OneBitExample(k);
      FlagMaskReadsBit(v, k);
    }
    NamesUpToUnchanged(v, 0, 2);
    assert NamesUpTo(v, 3) == [FlagName(2)];
    NamesUpToUnchanged(v, 3, FlagCount);
  }

  /** `0x800` meets no known mask, so it decodes to no names. */
  lemma HighFlagNames(v: nat)
    requires v == 0x800
    ensures NamesUpTo(v, FlagCount) == []
  {
    forall k | 0 <= k < FlagCount
      ensures And(v, FlagMask(k)) == 0
    {
      HighBitExample(k);
      FlagMaskReadsBit(v, k);
    }
    NamesUpToUnchanged(v, 0, FlagCount);
  }

  /** `0x004` has only the third known bit. */
  lemma OneBitExample(k: nat)
    requires k < FlagCount
    ensures Bit(0x004, FlagBit(k)) <==> k == 2
  {
    if k == 0 { assert !Bit(0x004, 0); }
    else if k == 1 { assert !Bit(0x004, 1); }
    else if k == 2 { assert Bit(0x004, 2); }
    else if k == 3 { assert !Bit(0x004, 3); }
    else if k == 4 { assert !Bit(0x004, 4); }
    else if k == 5 { assert !Bit(0x004, 6); }
    else if k == 6 { assert !Bit(0x004, 9); }
    else { assert !Bit(0x004, 10); }
  }

  /** `0x800` has no known bit. */
  lemma HighBitExample(k: nat)
    requires k < FlagCount
    ensures !Bit(0x800, FlagBit(k))
  {
    if k == 0 { assert !Bit(0x800, 0); }
    else if k == 1 { assert !Bit(0x800, 1); }
    else if k == 2 { assert !Bit(0x800, 2); }
    else if k == 3 { assert !Bit(0x800, 3); }
    else if k == 4 { assert !Bit(0x800, 4); }
    else if k == 5 { assert !Bit(0x800, 6); }
    else if k == 6 { assert !Bit(0x800, 9); }
    else { assert !Bit(0x800, 10); }
  }
}
