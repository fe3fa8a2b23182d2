/** The plan-limit lookup of app/utils/subscription.js: how many variants a shop on a
    given subscription plan may configure, and the table of tiers. */
module Subscription {
  import opened Wrappers

  /** A variant limit; `null` in the source means no limit. */
  datatype Limit = Limited(count: nat) | Unlimited

  // ---------------------------------------------------------------------------
  // Lower-casing and substring search

  predicate IsUpper(c: char) { 'A' <= c <= 'Z' }

  /** `toLowerCase` on one character, for the ASCII letters. */
  function Lower(c: char): (l: char)
    ensures !IsUpper(l)
    ensures IsUpper(c) ==> l as int == c as int + 32
    ensures !IsUpper(c) ==> l == c
  {
    if IsUpper(c) then (c as int + 32) as char else c
  }

  /** `s.toLowerCase()`, character by character. */
  function LowerString(s: string): (r: string)
    ensures |r| == |s|
    ensures forall i :: 0 <= i < |s| ==> r[i] == Lower(s[i])
  {
    if s == [] then [] else LowerString(s[..|s| - 1]) + [Lower(s[|s| - 1])]
  }

  /** Lower-casing twice is lower-casing once. */
  lemma LowerStringIdempotent(s: string)
    ensures LowerString(LowerString(s)) == LowerString(s)
  {
    var once := LowerString(s);
    var twice := LowerString(once);
    assert |twice| == |once|;
    forall i | 0 <= i < |once| ensures twice[i] == once[i] { }
  }

  /** `s.includes(word)`: whether word starts at some position of s. */
  function Includes(s: string, word: string): (b: bool)
    ensures b ==> |word| <= |s|
    ensures |word| <= |s| && s[..|word|] == word ==> b
    decreases |s|
  {
    if |s| < |word| then false
    else s[..|word|] == word || (s != [] && Includes(s[1..], word))
  }

  /** word occurs in s at position i. */
  ghost predicate OccursAt(s: string, word: string, i: int)
  {
    0 <= i && i + |word| <= |s| && s[i..i + |word|] == word
  }

  /** An occurrence after the first position is an occurrence in the tail. */
  lemma OccursShift(s: string, word: string, i: int)
    requires s != [] && 0 < i
    ensures OccursAt(s, word, i) <==> OccursAt(s[1..], word, i - 1)
  {
    if i + |word| <= |s| {
      assert s[1..][i - 1..i - 1 + |word|] == s[i..i + |word|];
    }
  }

  /** The search finds word exactly when it occurs somewhere in s. */
  lemma {:induction false} IncludesIff(s: string, word: string)
    ensures Includes(s, word) <==> exists i :: OccursAt(s, word, i)
    decreases |s|
  {
    if |s| < |word| {
      forall i ensures !OccursAt(s, word, i) { }
    } else if s[..|word|] == word {
      assert OccursAt(s, word, 0);
    } else {
      IncludesIff(s[1..], word);
      if Includes(s[1..], word) {
        var i :| OccursAt(s[1..], word, i);
        OccursShift(s, word, i + 1);
      } else {
        forall i ensures !OccursAt(s, word, i) {
          if 0 < i {
            OccursShift(s, word, i);
          }
        }
      }
    }
  }

  // ---------------------------------------------------------------------------
  // The lookup

  const FreeLimit: nat := 10
  const StartupLimit: nat := 100
  const GrowthLimit: nat := 500

  /** `getVariantLimitForPlan(planName)`; None stands for a null or undefined name. A
      missing or empty name gets the free limit; otherwise the lower-cased name is
      searched for "startup", then "growth", then "expand". */
  function VariantLimitForPlan(planName: Option<string>): (l: Limit)
    ensures planName.None? || planName.value == "" ==> l == Limited(FreeLimit)
    ensures l in {Limited(FreeLimit), Limited(StartupLimit), Limited(GrowthLimit), Unlimited}
  {
    if planName.None? || planName.value == "" then Limited(FreeLimit)
    else
      var lowerPlan := LowerString(planName.value);
      if Includes(lowerPlan, "startup") then Limited(StartupLimit)
      else if Includes(lowerPlan, "growth") then Limited(GrowthLimit)
      else if Includes(lowerPlan, "expand") then Unlimited
      else Limited(FreeLimit)
  }

  /** The lower-cased name mentions word. */
  ghost predicate Mentions(name: string, word: string)
  {
    exists i :: OccursAt(LowerString(name), word, i)
  }

  /** The priority order, stated on occurrences: "startup" anywhere wins, then "growth",
      then "expand"; a name with none of them gets the free limit. */
  lemma VariantLimitPriority(name: string)
    ensures Mentions(name, "startup") ==> VariantLimitForPlan(Some(name)) == Limited(StartupLimit)
    ensures !Mentions(name, "startup") && Mentions(name, "growth") ==>
      VariantLimitForPlan(Some(name)) == Limited(GrowthLimit)
    ensures !Mentions(name, "startup") && !Mentions(name, "growth") && Mentions(name, "expand") ==>
      VariantLimitForPlan(Some(name)) == Unlimited
    ensures !Mentions(name, "startup") && !Mentions(name, "growth") && !Mentions(name, "expand") ==>
      VariantLimitForPlan(Some(name)) == Limited(FreeLimit)
  {
    var lowerPlan := LowerString(name);
    IncludesIff(lowerPlan, "startup");
    IncludesIff(lowerPlan, "growth");
    IncludesIff(lowerPlan, "expand");
    if name == "" {
      assert !Mentions(name, "startup") && !Mentions(name, "growth") && !Mentions(name, "expand") by {
        assert lowerPlan == [];
      }
    }
  }

  /** Each limit other than the free one comes from its keyword: the lookup answers 100
      only for names mentioning "startup", 500 only for names mentioning "growth", and
      no limit only for names mentioning "expand". */
  lemma VariantLimitReasons(name: string)
    ensures VariantLimitForPlan(Some(name)) == Limited(StartupLimit) ==> Mentions(name, "startup")
    ensures VariantLimitForPlan(Some(name)) == Limited(GrowthLimit) ==> Mentions(name, "growth")
    ensures VariantLimitForPlan(Some(name)) == Unlimited ==> Mentions(name, "expand")
  {
    IncludesIff(LowerString(name), "startup");
    IncludesIff(LowerString(name), "growth");
    IncludesIff(LowerString(name), "expand");
  }

  /** Matching ignores case: a name and its lower-cased form get the same limit, so two
      names that differ only in the case of ASCII letters do too. */
  lemma {:induction false} VariantLimitIgnoresCase(a: string, b: string)
    requires LowerString(a) == LowerString(b)
    ensures VariantLimitForPlan(Some(LowerString(a))) == VariantLimitForPlan(Some(a))
    ensures VariantLimitForPlan(Some(a)) == VariantLimitForPlan(Some(b))
  {
    LowerStringIdempotent(a);
    assert a == [] <==> LowerString(a) == [];
    assert b == [] <==> LowerString(b) == [];
  }

  /** "STARTUP" and "startup" get the same limit, the startup one. */
  lemma StartupInCapitals()
    ensures VariantLimitForPlan(Some("STARTUP")) == VariantLimitForPlan(Some("startup")) == Limited(StartupLimit)
  {
    assert LowerString("STARTUP") == "startup";
    assert LowerString("startup") == "startup";
    VariantLimitIgnoresCase("STARTUP", "startup");
    assert "startup"[..7] == "startup";
  }

  // ---------------------------------------------------------------------------
  // The tier table

  /** One entry of `SUBSCRIPTION_TIERS`: its key, display name and limit. */
  datatype Tier = Tier(key: string, name: string, limit: Limit)

  /** a is a smaller limit than b; no limit is above every count. */
  predicate Below(a: Limit, b: Limit)
  {
    a.Limited? && (b.Unlimited? || a.count < b.count)
  }

  /** `SUBSCRIPTION_TIERS`, in declaration order: the free tier first, each later tier
      allowing more variants than the one before, and no key used twice. */
  function SubscriptionTiers(): (tiers: seq<Tier>)
    ensures |tiers| == 4 && tiers[0].limit == Limited(FreeLimit)
    ensures forall i :: 0 < i < |tiers| ==> Below(tiers[i - 1].limit, tiers[i].limit)
    ensures forall i, j :: 0 <= i < j < |tiers| ==> tiers[i].key != tiers[j].key
  {
    [
      Tier("FREE", "Free", Limited(10)),
      Tier("STARTUP", "Startup", Limited(100)),
      Tier("GROWTH", "Growth", Limited(500)),
      Tier("EXPAND", "Expand", Unlimited)
    ]
  }

  lemma FreeTierAgrees()
    ensures VariantLimitForPlan(Some("Free")) == Limited(10)
  {
    var l := LowerString("Free");
    assert l == "free";
    assert !Includes(l, "startup") && !Includes(l, "growth") && !Includes(l, "expand");
  }

  lemma StartupTierAgrees()
    ensures VariantLimitForPlan(Some("Startup")) == Limited(100)
  {
    var l := LowerString("Startup");
    assert l == "startup";
    assert l[..7] == "startup";
  }

  lemma GrowthTierAgrees()
    ensures VariantLimitForPlan(Some("Growth")) == Limited(500)
  {
    var l := LowerString("Growth");
    assert l == "growth";
    assert !Includes(l, "startup");
    assert l[..6] == "growth";
  }

  lemma ExpandTierAgrees()
    ensures VariantLimitForPlan(Some("Expand")) == Unlimited
  {
    var l := LowerString("Expand");
    assert l == "expand";
    assert |l| < |"startup"| && !Includes(l, "startup");
    assert l[..6][0] != "growth"[0];
    assert |l[1..]| < |"growth"| && !Includes(l[1..], "growth");
    assert !Includes(l, "growth");
    assert l[..6] == "expand";
  }

  /** The table agrees with the lookup: every tier's limit is what its name yields. */
  lemma TiersAgree()
    ensures forall t :: t in SubscriptionTiers() ==> VariantLimitForPlan(Some(t.name)) == t.limit
  {
    FreeTierAgrees();
    StartupTierAgrees();
    GrowthTierAgrees();
    ExpandTierAgrees();
  }
}
