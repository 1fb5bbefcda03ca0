/**
 * The matched-play missions screen (js/MisionesMatched.js): six pools of four missions,
 * a rounds counter, a random pick, the generation of one mission per round from distinct
 * pools, and the list of PDF addresses tried for a mission.
 */
module MisionesMatched {
  import opened JsText
  import opened I18n
  import opened FisherYates
  import opened Rounds

  /** `POOLS`: six pools, four missions each. */
  const Pools: seq<seq<string>> := [
    ["Domination", "Capture & Control", "Breakthrough", "Stake a Claim"],
    ["To the Death!", "Lords of Battle", "Assassination", "Contest of Champions"],
    ["Hold Ground", "Heirloom of Ages Past", "Sites of Power", "Command the Battlefield"],
    ["Destroy the Supplies", "Retrieval", "Seize the Prizes", "Treasure Hoard"],
    ["Reconnoitre", "Storm the Camp", "Divide & Conquer", "Escort the Wounded"],
    ["Fog of War", "Clash by Moonlight", "Lead from the Front", "Convergence"]
  ]

  /** The screen's largest rounds count, the `6` of `Math.min(6, …)`. */
  const MaxRounds := 6

  /** There are as many pools as the largest rounds count, and each pool has four missions. */
  lemma PoolsShape()
    ensures |Pools| == MaxRounds
    ensures forall p :: 0 <= p < |Pools| ==> |Pools[p]| == 4
  {
  }

  /** No mission is listed twice, within a pool or across pools. */
  lemma PoolsDisjoint(p: nat, a: nat, q: nat, b: nat)
    requires p < |Pools| && q < |Pools| && a < |Pools[p]| && b < |Pools[q]|
    requires p != q || a != b
    ensures Pools[p][a] != Pools[q][b]
  {
  }

  /** Every mission has a name, so `if (lastSelected)` sees a truthy mission. */
  lemma MissionNamed(p: nat, a: nat)
    requires p < |Pools| && a < |Pools[p]|
    ensures Pools[p][a] != ""
  {
  }

  /**
   * `Array.from(missionEntries.keys())`: the pools' missions in insertion order, pool by
   * pool.
   */
  function AllMissions(): (ms: seq<string>)
    ensures |ms| == 24
  {
    seq(24, i requires 0 <= i < 24 => Pools[i / 4][i % 4])
  }

  /** A mission of any pool is one of the screen's missions. */
  lemma InAllMissions(p: nat, a: nat)
    requires p < |Pools| && a < |Pools[p]|
    ensures Pools[p][a] in AllMissions()
  {
    var i := 4 * p + a;
    assert i / 4 == p && i % 4 == a;
    assert AllMissions()[i] == Pools[p][a];
  }

  /**
   * The mission each chosen pool contributes: `POOLS[poolIndex].items[draw]`, with `draw`
   * the injected `Math.floor(Math.random() * missions.length)`.
   */
  function RoundMissions(chosen: seq<nat>, missionDraws: seq<nat>): (ms: seq<string>)
    requires |missionDraws| == |chosen|
    requires forall k :: 0 <= k < |chosen| ==> chosen[k] < |Pools|
    requires forall k :: 0 <= k < |missionDraws| ==> missionDraws[k] < 4
    ensures |ms| == |chosen|
  {
    seq(|chosen|, k requires 0 <= k < |chosen| => Pools[chosen[k]][missionDraws[k]])
  }

  /** Round `k`'s mission comes from the pool chosen for round `k`. */
  lemma RoundMissionsFromPools(chosen: seq<nat>, missionDraws: seq<nat>)
    requires |missionDraws| == |chosen|
    requires forall k :: 0 <= k < |chosen| ==> chosen[k] < |Pools|
    requires forall k :: 0 <= k < |missionDraws| ==> missionDraws[k] < 4
    ensures forall k :: 0 <= k < |chosen| ==> RoundMissions(chosen, missionDraws)[k] in Pools[chosen[k]]
  {
    var ms := RoundMissions(chosen, missionDraws);
    forall k | 0 <= k < |chosen| ensures ms[k] in Pools[chosen[k]] {
      assert ms[k] == Pools[chosen[k]][missionDraws[k]];
    }
  }

  /** Missions drawn from distinct pools are distinct. */
  lemma RoundMissionsDistinct(chosen: seq<nat>, missionDraws: seq<nat>)
    requires |missionDraws| == |chosen|
    requires forall k :: 0 <= k < |chosen| ==> chosen[k] < |Pools|
    requires forall k :: 0 <= k < |missionDraws| ==> missionDraws[k] < 4
    requires Distinct(chosen)
    ensures Distinct(RoundMissions(chosen, missionDraws))
  {
    var ms := RoundMissions(chosen, missionDraws);
    forall i, j | 0 <= i < j < |ms| ensures ms[i] != ms[j] {
      PoolsDisjoint(chosen[i], missionDraws[i], chosen[j], missionDraws[j]);
    }
  }

  /** The pools `generateRounds` picks: the first `total` of the shuffled pool indexes. */
  function ChosenPools(draws: seq<nat>, total: nat): (chosen: seq<nat>)
    requires ValidDraws(|Pools|, draws) && total <= |Pools|
    ensures |chosen| == total && Distinct(chosen)
    ensures forall k :: 0 <= k < total ==> chosen[k] < |Pools|
  {
    ShuffledRange(|Pools|, draws);
    Shuffled(Range(|Pools|), draws)[..total]
  }

  /**
   * What `generateRounds` promises: `total` missions, each from its own pool, badged
   * `1..total` in order, the last one badged `total`.
   */
  lemma GeneratedRounds(draws: seq<nat>, missionDraws: seq<nat>, total: nat)
    requires ValidDraws(|Pools|, draws) && 1 <= total <= |Pools|
    requires |missionDraws| == total
    requires forall k :: 0 <= k < total ==> missionDraws[k] < 4
    ensures var chosen := ChosenPools(draws, total);
      var ms := RoundMissions(chosen, missionDraws);
      var badges := Numbered(ms);
      |badges| == total &&
      (forall k :: 0 <= k < total ==> ms[k] in Pools[chosen[k]] && ms[k] in badges && badges[ms[k]] == k + 1) &&
      (forall k, l :: 0 <= k < l < total ==> chosen[k] != chosen[l]) &&
      ms[total - 1] in badges && badges[ms[total - 1]] == total
  {
    var chosen := ChosenPools(draws, total);
    var ms := RoundMissions(chosen, missionDraws);
    RoundMissionsFromPools(chosen, missionDraws);
    RoundMissionsDistinct(chosen, missionDraws);
    NumberedDistinct(ms);
  }

  // ---------------------------------------------------------------------------
  // PDF candidates

  /** The first index of `x` in `s`. */
  function FirstIndex<T(==)>(s: seq<T>, x: T): (i: nat)
    requires x in s
    ensures i < |s| && s[i] == x
    ensures forall k :: 0 <= k < i ==> s[k] != x
  {
    if s[0] == x then 0 else 1 + FirstIndex(s[1..], x)
  }

  /** The first index of an element of a prefix does not change when the sequence grows. */
  lemma FirstIndexSnoc<T>(s: seq<T>, x: T, y: T)
    requires y in s
    ensures FirstIndex(s + [x], y) == FirstIndex(s, y)
  {
    var i := FirstIndex(s, y);
    var t := s + [x];
    assert t[i] == y;
    var j := FirstIndex(t, y);
    assert j <= i;
    assert s[j] == t[j];
  }

  /**
   * `candidates` after the `seen`-set loop: each string at its first occurrence, later
   * repetitions dropped.
   */
  function Dedup(hs: seq<string>): (d: seq<string>)
    ensures |d| <= |hs|
  {
    if hs == [] then []
    else
      var d := Dedup(hs[..|hs| - 1]);
      var x := hs[|hs| - 1];
      if x in d then d else d + [x]
  }

  /** The deduplication holds every string of `hs`, only those, and each once. */
  lemma {:induction false} DedupSpec(hs: seq<string>)
    ensures var d := Dedup(hs);
      Distinct(d) && (forall x :: x in d <==> x in hs)
  {
    if hs != [] {
      var init := hs[..|hs| - 1];
      var x := hs[|hs| - 1];
      DedupSpec(init);
      assert hs == init + [x];
      var d := Dedup(init);
      forall i, j | 0 <= i < j < |Dedup(hs)| ensures Dedup(hs)[i] != Dedup(hs)[j] {
        if x !in d && j == |d| {
          assert Dedup(hs)[i] == d[i];
        }
      }
    }
  }

  /** A sequence without repetitions is its own deduplication. */
  lemma {:induction false} DedupOfDistinct(hs: seq<string>)
    requires Distinct(hs)
    ensures Dedup(hs) == hs
  {
    if hs != [] {
      var init := hs[..|hs| - 1];
      assert Distinct(init);
      DedupOfDistinct(init);
      assert hs[|hs| - 1] !in init by {
        forall k | 0 <= k < |init| ensures init[k] != hs[|hs| - 1] {
          assert init[k] == hs[k];
        }
      }
      assert init + [hs[|hs| - 1]] == hs;
    }
  }

  /** The deduplication starts with the first string. */
  lemma {:induction false} DedupHead(hs: seq<string>)
    requires hs != []
    ensures Dedup(hs) != [] && Dedup(hs)[0] == hs[0]
  {
    var init := hs[..|hs| - 1];
    if init != [] {
      DedupHead(init);
      assert init[0] == hs[0];
    }
  }

  /** One more string: kept at the end exactly when it is new. */
  lemma DedupSnoc(hs: seq<string>, h: string)
    ensures Dedup(hs + [h]) == if h in Dedup(hs) then Dedup(hs) else Dedup(hs) + [h]
  {
    assert (hs + [h])[..|hs|] == hs;
  }

  /** The survivors keep the order of their first occurrences. */
  lemma {:induction false} DedupKeepsOrder(hs: seq<string>)
    ensures forall x :: x in Dedup(hs) ==> x in hs
    ensures var d := Dedup(hs);
      forall i, j :: 0 <= i < j < |d| ==> FirstIndex(hs, d[i]) < FirstIndex(hs, d[j])
  {
    if hs != [] {
      var init := hs[..|hs| - 1];
      var x := hs[|hs| - 1];
      assert hs == init + [x];
      DedupKeepsOrder(init);
      DedupSpec(init);
      var prev := Dedup(init);
      var d := Dedup(hs);
      DedupSnoc(init, x);
      forall i, j | 0 <= i < j < |d| ensures FirstIndex(hs, d[i]) < FirstIndex(hs, d[j]) {
        assert d[i] == prev[i];
        assert d[i] in init;
        FirstIndexSnoc(init, x, d[i]);
        if j < |prev| {
          assert d[j] == prev[j];
          FirstIndexSnoc(init, x, d[j]);
        } else {
          assert d[j] == x && x !in init;
          assert forall k :: 0 <= k < |init| ==> hs[k] == init[k];
          assert FirstIndex(hs, x) == |init|;
        }
      }
    }
  }

  /** `` `${mission.toUpperCase()}.pdf` ``. */
  function PdfBaseName(mission: string): (name: string)
    ensures |name| == |mission| + 4 && name[|mission|..] == ".pdf"
  {
    ToUpper(mission) + ".pdf"
  }

  /**
   * The four filename variants: the name itself, `encodeURIComponent` of it (abstract
   * here), spaces as underscores, and exclamation marks removed.
   */
  function PdfVariants(mission: string, encode: string -> string): (vs: seq<string>)
    ensures |vs| == 4 && vs[0] == PdfBaseName(mission)
  {
    var base := PdfBaseName(mission);
    [base, encode(base), ReplaceChar(base, ' ', '_'), RemoveChar(base, '!')]
  }

  /**
   * `new URL(variant, baseUrl).href` for each variant that is not empty (`if (!variant)
   * return;`), with the resolution against the PDF directory abstract.
   */
  function ResolvedHrefs(variants: seq<string>, resolve: string -> string): (hrefs: seq<string>)
    ensures |hrefs| <= |variants|
    ensures variants != [] && variants[0] != "" ==> hrefs != [] && hrefs[0] == resolve(variants[0])
  {
    if variants == [] then []
    else
      var init := variants[..|variants| - 1];
      var v := variants[|variants| - 1];
      assert init != [] ==> init[0] == variants[0];
      ResolvedHrefs(init, resolve) + (if v == "" then [] else [resolve(v)])
  }

  /** One more variant: its address is appended unless the variant is empty. */
  lemma ResolvedHrefsSnoc(variants: seq<string>, v: string, resolve: string -> string)
    ensures ResolvedHrefs(variants + [v], resolve)
      == ResolvedHrefs(variants, resolve) + (if v == "" then [] else [resolve(v)])
  {
    assert (variants + [v])[..|variants|] == variants;
  }

  /** The addresses of one more variant of the same list. */
  lemma ResolvedHrefsStep(variants: seq<string>, i: nat, resolve: string -> string)
    requires i < |variants|
    ensures ResolvedHrefs(variants[..i + 1], resolve) ==
      if variants[i] == "" then ResolvedHrefs(variants[..i], resolve)
      else ResolvedHrefs(variants[..i], resolve) + [resolve(variants[i])]
  {
    assert variants[..i + 1] == variants[..i] + [variants[i]];
    ResolvedHrefsSnoc(variants[..i], variants[i], resolve);
    assert ResolvedHrefs(variants[..i], resolve) + [] == ResolvedHrefs(variants[..i], resolve);
  }

  /** Every address comes from a nonempty variant. */
  lemma {:induction false} ResolvedHrefsFrom(variants: seq<string>, resolve: string -> string, h: string)
    requires h in ResolvedHrefs(variants, resolve)
    ensures exists v :: v in variants && v != "" && h == resolve(v)
  {
    var init := variants[..|variants| - 1];
    var v := variants[|variants| - 1];
    ResolvedHrefsSnoc(init, v, resolve);
    assert variants == init + [v];
    if h in ResolvedHrefs(init, resolve) {
      ResolvedHrefsFrom(init, resolve, h);
      var w :| w in init && w != "" && h == resolve(w);
      assert w in variants;
    } else {
      assert v in variants && v != "" && h == resolve(v);
    }
  }

  /** One more variant: its address joins the candidates exactly when it is new. */
  lemma CollectStep(variants: seq<string>, i: nat, resolve: string -> string, before: seq<string>)
    requires i < |variants| && before == Dedup(ResolvedHrefs(variants[..i], resolve))
    ensures variants[i] == "" ==> Dedup(ResolvedHrefs(variants[..i + 1], resolve)) == before
    ensures variants[i] != "" && resolve(variants[i]) in before ==>
      Dedup(ResolvedHrefs(variants[..i + 1], resolve)) == before
    ensures variants[i] != "" && resolve(variants[i]) !in before ==>
      Dedup(ResolvedHrefs(variants[..i + 1], resolve)) == before + [resolve(variants[i])]
  {
    ResolvedHrefsStep(variants, i, resolve);
    if variants[i] != "" {
      DedupSnoc(ResolvedHrefs(variants[..i], resolve), resolve(variants[i]));
    }
  }

  /**
   * The `variants.forEach` loop of `buildPdfCandidates`: skip empty variants, resolve the
   * rest, and push each address the `seen` set has not had yet.
   */
  method CollectCandidates(variants: seq<string>, resolve: string -> string)
    returns (candidates: seq<string>)
    ensures candidates == Dedup(ResolvedHrefs(variants, resolve))
  {
    candidates := [];
    var seen: set<string> := {};
    for i := 0 to |variants|
      invariant candidates == Dedup(ResolvedHrefs(variants[..i], resolve))
      invariant forall c :: c in seen <==> c in candidates
    {
      CollectStep(variants, i, resolve, candidates);
      var variant := variants[i];
      if variant != "" {
        var href := resolve(variant);
        if href !in seen {
          seen := seen + {href};
          candidates := candidates + [href];
        }
      }
    }
    assert variants[..|variants|] == variants;
  }

  /**
   * `buildPdfCandidates`: the resolved variants in order, each address kept at its first
   * occurrence only; so at most four, none twice, and the plain upper-cased name first.
   */
  method BuildPdfCandidates(mission: string, encode: string -> string, resolve: string -> string)
    returns (candidates: seq<string>)
    ensures candidates == Dedup(ResolvedHrefs(PdfVariants(mission, encode), resolve))
    ensures Distinct(candidates) && 1 <= |candidates| <= 4
    ensures candidates[0] == resolve(PdfBaseName(mission))
  {
    var variants := PdfVariants(mission, encode);
    candidates := CollectCandidates(variants, resolve);
    DedupHead(ResolvedHrefs(variants, resolve));
    DedupSpec(ResolvedHrefs(variants, resolve));
  }

  // ---------------------------------------------------------------------------
  // Screen state

  /** The screen's `state`, with the rounds field's text and the stored language beside it. */
  class MissionsScreen {
    /** `state.lang`. */
    var lang: string
    /** `localStorage`, as the language helpers see it. */
    var storage: Storage
    /** `state.selected`: the highlighted mission, or `''`. */
    var selected: string
    /** `state.rounds`. */
    var rounds: string
    /** `roundsInput.value`. */
    var field: string
    /** `state.badges`: mission to round number. */
    var badges: map<string, int>
    /** `Array.from(missionEntries.keys())`. */
    const entries: seq<string>

    /** The state every handler keeps. */
    ghost predicate Valid()
      reads this
    {
      (lang == "es" || lang == "en") && ValidRounds(rounds)
    }

    /** The initial `state` and the mission buttons, one per mission. */
    constructor(storage: Storage, nav: Navigator)
      ensures lang == DetectInitialLang(storage, nav) && this.storage == storage
      ensures selected == "" && rounds == "3" && field == "3" && badges == map[]
      ensures entries == AllMissions()
      ensures Valid()
    {
      lang := DetectInitialLang(storage, nav);
      this.storage := storage;
      selected := "";
      rounds := "3";
      field := "3";
      badges := map[];
      entries := AllMissions();
    }

    /** `setLang`: normalise, then store. */
    method SetLang(value: JsValue)
      requires Valid()
      modifies this
      ensures lang == NormaliseLang(value) && storage == SetStoredLang(old(storage), Str(lang))
      ensures unchanged(this`selected, this`rounds, this`field, this`badges)
      ensures Valid()
    {
      lang := NormaliseLang(value);
      storage := SetStoredLang(storage, Str(lang));
    }

    /** The `−` button. */
    method Decrement()
      requires Valid()
      modifies this
      ensures rounds == Stepped(old(rounds), -1, MaxRounds) && field == rounds
      ensures unchanged(this`lang, this`storage, this`selected, this`badges)
      ensures Valid() && rounds != ""
    {
      SteppedValid(rounds, -1);
      rounds := Stepped(rounds, -1, MaxRounds);
      field := rounds;
    }

    /** The `+` button. */
    method Increment()
      requires Valid()
      modifies this
      ensures rounds == Stepped(old(rounds), 1, MaxRounds) && field == rounds
      ensures unchanged(this`lang, this`storage, this`selected, this`badges)
      ensures Valid() && rounds != ""
    {
      SteppedValid(rounds, 1);
      rounds := Stepped(rounds, 1, MaxRounds);
      field := rounds;
    }

    /**
     * The `input` event after the user has typed `typed` into the field: blank clears the
     * count, a digit 1–6 becomes the count, anything else puts the count back in the field.
     */
    method OnInput(typed: string)
      requires Valid()
      modifies this
      ensures ClassifyInput(typed).Cleared? ==> rounds == "" && field == typed
      ensures ClassifyInput(typed).Accepted? ==> rounds == Trim(typed) && field == typed
      ensures ClassifyInput(typed).Rejected? ==> rounds == old(rounds) && field == old(rounds)
      ensures unchanged(this`lang, this`storage, this`selected, this`badges)
      ensures Valid()
    {
      field := typed;
      match ClassifyInput(typed)
      case Cleared =>
        rounds := "";
      case Accepted(value) =>
        rounds := value;
      case Rejected =>
        field := rounds;
    }

    /** The `blur` event: the field's text, clamped, becomes the count and the field. */
    method OnBlur()
      requires Valid()
      modifies this
      ensures rounds == ClampRounds(old(field), MaxRounds) && field == rounds
      ensures unchanged(this`lang, this`storage, this`selected, this`badges)
      ensures Valid() && rounds != ""
    {
      ClampRoundsValid(field);
      rounds := ClampRounds(field, MaxRounds);
      field := rounds;
    }

    /**
     * `pickRandomMission`, with `pick` the injected random index: selects one of the
     * missions and clears the badges; with no missions it does nothing.
     */
    method PickRandomMission(pick: nat)
      requires |entries| > 0 ==> pick < |entries|
      modifies this
      ensures |entries| > 0 ==> selected == entries[pick] && selected in entries && badges == map[]
      ensures |entries| == 0 ==> unchanged(this`selected, this`badges)
      ensures unchanged(this`lang, this`storage, this`rounds, this`field)
      ensures old(Valid()) ==> Valid()
    {
      if |entries| == 0 {
        return;
      }
      selected := entries[pick];
      badges := map[];
    }

    /**
     * `generateRounds`: badge the drawn missions and select the last one, if any.
     */
    method GenerateRounds(draws: seq<nat>, missionDraws: seq<nat>)
      requires Valid()
      requires ValidDraws(|Pools|, draws)
      requires |missionDraws| == RoundsTotal(rounds, MaxRounds)
      requires forall k :: 0 <= k < |missionDraws| ==> missionDraws[k] < 4
      modifies this
      ensures var ms := RoundMissions(ChosenPools(draws, |missionDraws|), missionDraws);
        badges == Numbered(ms) && selected == ms[|missionDraws| - 1]
      ensures unchanged(this`lang, this`storage, this`rounds, this`field)
      ensures Valid()
    {
      // One draw per round: `missionDraws` has exactly `parseInt(clampRoundsValue(rounds))` entries.
      var total := |missionDraws|;
      var nextBadges, lastSelected := DrawRounds(total, draws, missionDraws);
      ghost var last := RoundMissions(ChosenPools(draws, total), missionDraws)[total - 1];
      assert lastSelected == Some(last);
      badges := nextBadges;
      if lastSelected.Some? && lastSelected.value != "" {
        selected := lastSelected.value;
      }
    }
  }

  /**
   * The body of `generateRounds` up to the state update: shuffle the pool indexes with
   * `draws`, take the first `total`, draw one mission from each with `missionDraws` and
   * number them `1..total`; `lastSelected` is the last mission drawn.
   */
  method DrawRounds(total: nat, draws: seq<nat>, missionDraws: seq<nat>)
    returns (nextBadges: map<string, int>, lastSelected: Option<string>)
    requires ValidDraws(|Pools|, draws) && 1 <= total <= |Pools|
    requires |missionDraws| == total
    requires forall k :: 0 <= k < total ==> missionDraws[k] < 4
    ensures var ms := RoundMissions(ChosenPools(draws, total), missionDraws);
      nextBadges == Numbered(ms) && lastSelected == Some(ms[total - 1])
    ensures lastSelected.Some? && lastSelected.value != ""
  {
    var indexes := new nat[|Pools|](i => i);
    assert indexes[..] == Range(|Pools|);
    Shuffle(indexes, draws);
    var chosen := indexes[..total];
    assert chosen == ChosenPools(draws, total);
    ghost var missions := RoundMissions(chosen, missionDraws);
    nextBadges := map[];
    lastSelected := None;
    for order := 0 to total
      invariant nextBadges == Numbered(missions[..order])
      invariant lastSelected == if order == 0 then None else Some(missions[order - 1])
    {
      var pool := Pools[chosen[order]];
      var mission := pool[missionDraws[order]];
      assert mission == missions[order];
      NumberedPrefix(missions, order);
      nextBadges := nextBadges[mission := order + 1];
      lastSelected := Some(mission);
    }
    assert missions[..total] == missions;
    MissionNamed(chosen[total - 1], missionDraws[total - 1]);
  }
}
