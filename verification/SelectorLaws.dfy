// The parts of a cluster selector, character by character (src/target.rs).

module SelectorLaws {
  import opened Wrappers
  import opened Selectors

  predicate IsLowDigit(c: char) {
    97 <= c as int <= 122 || 48 <= c as int <= 57
  }

  // ---- Regions. ----

  /** Small letters, digits and dashes; behind each dash stands something else. */
  predicate DashesInside(s: string) {
    && (forall k :: 0 <= k < |s| ==> s[k] == '-' || IsLowDigit(s[k]))
    && forall k :: 0 <= k < |s| && s[k] == '-' ==> k + 1 < |s| && s[k + 1] != '-'
  }

  predicate PartsInside(parts: seq<string>) {
    forall j :: 0 <= j < |parts| ==> AllLowerOrDigit(parts[j]) && (0 < j ==> parts[j] != "")
  }

  lemma SplitFirst(s: string)
    ensures Split(s, '-')[0] == "" <==> s == "" || s[0] == '-'
  {
  }

  lemma DashFirst(s: string)
    requires s != "" && s[0] == '-'
    ensures DashesInside(s) <==> DashesInside(s[1..]) && s[1..] != "" && s[1] != '-'
  {
    var t := s[1..];
    assert forall k :: 0 <= k < |t| ==> t[k] == s[k + 1];
    if DashesInside(t) && t != "" && s[1] != '-' {
      forall k | 0 <= k < |s| && s[k] == '-'
        ensures k + 1 < |s| && s[k + 1] != '-'
      {
        if k > 0 {
          assert t[k - 1] == '-';
          assert s[k + 1] == t[k];
        }
      }
      assert forall k :: 0 < k < |s| ==> s[k] == t[k - 1];
    }
    if DashesInside(s) {
      assert s[1] != '-';
      assert forall k :: 0 <= k < |t| && t[k] == '-' ==> s[k + 1] == '-' && k + 2 < |s| && s[k + 2] != '-';
    }
  }

  lemma OtherFirst(s: string)
    requires s != "" && s[0] != '-'
    ensures DashesInside(s) <==> DashesInside(s[1..]) && IsLowDigit(s[0])
  {
    var t := s[1..];
    assert forall k :: 0 <= k < |t| ==> t[k] == s[k + 1];
    assert forall k :: 0 < k < |s| ==> s[k] == t[k - 1];
    if DashesInside(t) && IsLowDigit(s[0]) {
      forall k | 0 <= k < |s| && s[k] == '-'
        ensures k + 1 < |s| && s[k + 1] != '-'
      {
        assert t[k - 1] == '-' && s[k + 1] == t[k];
      }
    }
    if DashesInside(s) {
      assert forall k :: 0 <= k < |t| && t[k] == '-' ==> s[k + 1] == '-' && k + 2 < |s| && s[k + 2] != '-';
    }
  }

  lemma {:induction false} InsideMeans(s: string)
    ensures PartsInside(Split(s, '-')) <==> DashesInside(s)
  {
    hide DashesInside;
    if s == "" {
      EmptyInside();
    } else {
      var rest := Split(s[1..], '-');
      InsideMeans(s[1..]);
      SplitFirst(s[1..]);
      if s[0] == '-' {
        DashFirst(s);
        PartsBehindDash(rest);
      } else {
        OtherFirst(s);
        PartsBehindOther(s[0], rest);
      }
    }
  }

  lemma EmptyInside()
    ensures PartsInside(Split("", '-')) && DashesInside("")
  {
  }

  lemma PartsBehindDash(rest: seq<string>)
    requires rest != []
    ensures PartsInside([""] + rest) <==> PartsInside(rest) && rest[0] != ""
  {
    var parts := [""] + rest;
    assert forall j :: 0 <= j < |rest| ==> parts[j + 1] == rest[j];
    assert forall j :: 0 < j < |parts| ==> parts[j] == rest[j - 1];
  }

  lemma PartsBehindOther(c: char, rest: seq<string>)
    requires rest != []
    ensures PartsInside([[c] + rest[0]] + rest[1..]) <==> PartsInside(rest) && IsLowDigit(c)
  {
    var parts := [[c] + rest[0]] + rest[1..];
    assert forall j :: 0 < j < |rest| ==> parts[j] == rest[j];
    assert parts[0][0] == c && parts[0][1..] == rest[0];
    assert forall k :: 0 <= k < |rest[0]| ==> parts[0][k + 1] == rest[0][k];
    assert forall k :: 0 < k < |parts[0]| ==> parts[0][k] == rest[0][k - 1];
  }

  function Dashes(s: string): nat {
    if s == "" then 0 else (if s[0] == '-' then 1 else 0) + Dashes(s[1..])
  }

  lemma {:induction false} DashesCountParts(s: string)
    ensures |Split(s, '-')| == Dashes(s) + 1
  {
    if s != "" {
      DashesCountParts(s[1..]);
    }
  }

  /** No dash stands at `k` or behind it. */
  predicate BehindDashes(s: string, k: nat) {
    forall l :: k <= l < |s| ==> s[l] != '-'
  }

  predicate DigitsLast(s: string) {
    forall k: nat :: k < |s| && BehindDashes(s, k) ==> 48 <= s[k] as int <= 57
  }

  lemma BehindDashesTail(s: string, k: nat)
    requires 0 < k <= |s|
    ensures BehindDashes(s, k) == BehindDashes(s[1..], k - 1)
  {
    var t := s[1..];
    assert forall l :: 0 <= l < |t| ==> t[l] == s[l + 1];
    if BehindDashes(t, k - 1) {
      assert forall l :: k <= l < |s| ==> s[l] == t[l - 1];
    }
  }

  lemma DigitsLastTail(s: string)
    requires s != ""
    ensures DigitsLast(s)
       <==> DigitsLast(s[1..]) && (BehindDashes(s, 0) ==> 48 <= s[0] as int <= 57)
  {
    hide BehindDashes;
    var t := s[1..];
    forall k: nat | k < |t|
      ensures BehindDashes(t, k) == BehindDashes(s, k + 1) && t[k] == s[k + 1]
    {
      BehindDashesTail(s, k + 1);
    }
    if DigitsLast(t) && (BehindDashes(s, 0) ==> 48 <= s[0] as int <= 57) {
      forall k: nat | k < |s| && BehindDashes(s, k)
        ensures 48 <= s[k] as int <= 57
      {
        if k > 0 {
          BehindDashesTail(s, k);
          assert BehindDashes(t, k - 1) && t[k - 1] == s[k];
        }
      }
    }
  }

  /** The last part holds digits only; with no dash the last part is the whole text. */
  lemma {:induction false} DigitsLastMeans(s: string)
    ensures var parts := Split(s, '-'); AllDigits(parts[|parts| - 1]) <==> DigitsLast(s)
    ensures |Split(s, '-')| == 1 <==> BehindDashes(s, 0)
    ensures |Split(s, '-')| == 1 ==> Split(s, '-')[0] == s
  {
    hide DigitsLast;
    hide BehindDashes;
    hide AllDigits;
    if s == "" {
      EmptyDigits();
    } else {
      var rest := Split(s[1..], '-');
      var parts := Split(s, '-');
      DigitsLastMeans(s[1..]);
      DigitsLastTail(s);
      BehindDashesTail(s, 1);
      BehindFirst(s);
      if s[0] != '-' && |rest| == 1 {
        assert parts == [[s[0]] + s[1..]] && [s[0]] + s[1..] == s;
        WholeDigits(s);
      } else {
        assert parts[|parts| - 1] == rest[|rest| - 1];
      }
    }
  }

  lemma EmptyDigits()
    ensures AllDigits("") && DigitsLast("") && BehindDashes("", 0) && Split("", '-') == [""]
  {
  }

  lemma BehindFirst(s: string)
    requires s != ""
    ensures BehindDashes(s, 0) <==> s[0] != '-' && BehindDashes(s, 1)
  {
  }

  lemma WholeDigits(s: string)
    requires BehindDashes(s, 0)
    ensures AllDigits(s) <==> DigitsLast(s)
  {
    assert forall k: nat :: k < |s| ==> BehindDashes(s, k);
  }

  /**
   * A Region has one to twenty small letters, digits and dashes, at least two of them
   * dashes, none at either end or next to another, and only digits behind the last.
   */
  lemma RegionMeans(s: string)
    ensures IsRegion(s)
       <==> && 0 < |s| <= 20 && s[0] != '-' && DashesInside(s) && Dashes(s) >= 2 && DigitsLast(s)
  {
    var parts := Split(s, '-');
    hide DashesInside;
    hide DigitsLast;
    hide Split;
    if s != "" {
      InsideMeans(s);
      SplitFirst(s);
      DashesCountParts(s);
      DigitsLastMeans(s);
      RegionParts(parts);
    }
  }

  lemma RegionParts(parts: seq<string>)
    requires |parts| >= 1
    ensures (&& (forall k :: 0 <= k < |parts| - 1 ==> parts[k] != "" && AllLowerOrDigit(parts[k]))
             && parts[|parts| - 1] != "" && AllDigits(parts[|parts| - 1]))
       <==> PartsInside(parts) && parts[0] != "" && AllDigits(parts[|parts| - 1])
  {
  }

  // ---- Identifiers, accounts, partitions. ----

  /** A bare selector is an identifier: exactly the texts of 26 small letters and digits. */
  lemma BareMeans(input: string)
    ensures ParseClusterSelector(input) == Ok(Bare(input).Fields())
       <==> |input| == 26 && forall k :: 0 <= k < 26 ==> IsLowDigit(input[k])
  {
    if |input| == 26 && forall k :: 0 <= k < 26 ==> IsLowDigit(input[k]) {
      assert input[3] != ':' && '.' !in input;
    }
  }

  lemma AccountMeans(s: string)
    ensures IsAccountId(s) <==> |s| == 12 && forall k :: 0 <= k < 12 ==> 48 <= s[k] as int <= 57
  {
  }

  /** The partition a Region belongs to, by its first letters. */
  function PartitionOf(region: string): string {
    if "cn-" <= region then "aws-cn"
    else if "us-gov-" <= region then "aws-us-gov"
    else if "us-iso-" <= region then "aws-iso"
    else if "us-isob-" <= region then "aws-iso-b"
    else if "eu-isoe-" <= region then "aws-iso-e"
    else if "us-isof-" <= region then "aws-iso-f"
    else "aws"
  }

  /** Each Region matches exactly one partition. */
  lemma OnePartition(partition: string, region: string)
    ensures IsPartition(partition) && PartitionMatchesRegion(partition, region) <==> partition == PartitionOf(region)
  {
    if "cn-" <= region {
      assert region[0] == 'c';
    }
    if "us-gov-" <= region {
      assert region[0] == 'u' && region[3] == 'g';
    }
    if "us-iso-" <= region {
      assert region[0] == 'u' && region[3] == 'i' && region[6] == '-';
    }
    if "us-isob-" <= region {
      assert region[0] == 'u' && region[3] == 'i' && region[6] == 'b';
    }
    if "eu-isoe-" <= region {
      assert region[0] == 'e';
    }
    if "us-isof-" <= region {
      assert region[0] == 'u' && region[3] == 'i' && region[6] == 'f';
    }
  }
}
