/**
 * The 2vs2 missions screen (js/Matched2vs2.js): six missions, a rounds counter bounded by
 * the number of missions, a random pick, the generation of distinct missions for the
 * rounds by shuffling a copy of the mission list, and the attachment of the screen's event
 * listeners.
 */
module Matched2vs2 {
  import opened JsText
  import opened I18n
  import opened FisherYates
  import opened Rounds

  /** `MISSIONS`. */
  const Missions: seq<string> := [
    "No Escape", "Total Conquest", "Take & Hold", "Clash of Champions", "Cornered", "Duel of Wits"
  ]

  /** Six missions, none listed twice and none unnamed. */
  lemma MissionsShape()
    ensures |Missions| == 6 && Distinct(Missions)
    ensures forall k :: 0 <= k < |Missions| ==> Missions[k] != ""
  {
  }

  /**
   * `clampRoundsValue` with the bound `MISSIONS.length`: always a count from 1 to 6, `'3'`
   * for text that does not parse, and a count already in range kept as it is.
   */
  lemma ClampToMissions(value: string)
    ensures IsRoundsCount(ClampRounds(value, |Missions|), |Missions|)
    ensures ParseRounds(value).None? ==> ClampRounds(value, |Missions|) == "3"
    ensures IsRoundsCount(value, |Missions|) ==> ClampRounds(value, |Missions|) == value
  {
    ClampRoundsSpec(value, |Missions|);
    if IsRoundsCount(value, |Missions|) {
      ClampRoundsKeepsCount(value, |Missions|);
    }
  }

  /** The shuffled copy holds the missions of `MISSIONS`, each as often as there. */
  lemma ShuffledMissions(draws: seq<nat>)
    requires ValidDraws(|Missions|, draws)
    ensures |Shuffled(Missions, draws)| == |Missions|
    ensures multiset(Shuffled(Missions, draws)) == multiset(Missions)
  {
    ShuffleStepsPermutes(Missions, draws, |draws|);
  }

  /**
   * The missions `generateRounds` keeps: the first `total` entries of the shuffled copy of
   * `MISSIONS`.
   */
  function ChosenMissions(draws: seq<nat>, total: nat): (ms: seq<string>)
    requires ValidDraws(|Missions|, draws) && total <= |Missions|
    ensures |ms| == total && Distinct(ms)
    ensures forall k :: 0 <= k < total ==> ms[k] in Missions
  {
    MissionsShape();
    ShuffledPrefix(Missions, draws, total);
    Shuffled(Missions, draws)[..total]
  }

  /**
   * What `generateRounds` promises: `total` different missions badged `1..total` in order,
   * no other mission badged, and the last one badged `total`.
   */
  lemma GeneratedRounds(draws: seq<nat>, total: nat)
    requires ValidDraws(|Missions|, draws) && 1 <= total <= |Missions|
    ensures var ms := ChosenMissions(draws, total);
      var badges := Numbered(ms);
      |badges| == total &&
      (forall k :: 0 <= k < total ==> ms[k] in badges && badges[ms[k]] == k + 1) &&
      (forall m :: m in badges ==> m in Missions) &&
      ms[total - 1] in badges && badges[ms[total - 1]] == total
  {
    var ms := ChosenMissions(draws, total);
    NumberedDistinct(ms);
    NumberedSpec(ms);
  }

  /** With every mission asked for, every mission is badged. */
  lemma AllRoundsUseAllMissions(draws: seq<nat>)
    requires ValidDraws(|Missions|, draws)
    ensures forall m :: m in Numbered(ChosenMissions(draws, |Missions|)) <==> m in Missions
  {
    var ms := ChosenMissions(draws, |Missions|);
    assert ms == Shuffled(Missions, draws);
    NumberedSpec(ms);
    forall m ensures m in Numbered(ms) <==> m in Missions {
      ShuffledHas(Missions, draws, m);
    }
  }

  /**
   * The body of `generateRounds` after `total` is known: copy `MISSIONS`, shuffle the copy
   * in place with `draws`, keep the first `total` and number them `1..total`; the last kept
   * mission becomes the selection (`|| ''` never applies, as every mission has a name).
   */
  method DrawMissions(total: nat, draws: seq<nat>)
    returns (nextBadges: map<string, int>, lastSelected: string)
    requires ValidDraws(|Missions|, draws) && 1 <= total <= |Missions|
    ensures var ms := ChosenMissions(draws, total);
      nextBadges == Numbered(ms) && lastSelected == ms[total - 1]
  {
    var shuffled := new string[|Missions|](i => if 0 <= i < |Missions| then Missions[i] else "");
    assert shuffled[..] == Missions;
    Shuffle(shuffled, draws);
    var selected := shuffled[..total];
    assert selected == ChosenMissions(draws, total);
    nextBadges := map[];
    for index := 0 to total
      invariant nextBadges == Numbered(selected[..index])
    {
      NumberedPrefix(selected, index);
      nextBadges := nextBadges[selected[index] := index + 1];
    }
    assert selected[..total] == selected;
    MissionsShape();
    // `selected[selected.length - 1] || ''`: the last entry is never empty, so it is taken as is.
    lastSelected := selected[total - 1];
  }

  // ---------------------------------------------------------------------------
  // Screen state

  /** The screen's `state`, with the rounds field's text and the stored language beside it. */
  class TwoVsTwoScreen {
    /** `state.lang`. */
    var lang: string
    /** `localStorage`, as the language helpers see it. */
    var storage: Storage
    /** `state.selected`: the highlighted mission, or `''`. */
    var selected: string
    /** `state.rounds`. */
    var rounds: string
    /** `roundsInput.value`. */
    var field: string
    /** `state.badges`: mission to round number. */
    var badges: map<string, int>
    /** `Array.from(missionEntries.keys())`: the missions in the order of `MISSIONS`. */
    const entries: seq<string>

    /** The state every handler keeps. */
    ghost predicate Valid()
      reads this
    {
      (lang == "es" || lang == "en") && ValidRounds(rounds)
    }

    /** The initial `state` and the mission chips, one per mission. */
    constructor(storage: Storage, nav: Navigator)
      ensures lang == DetectInitialLang(storage, nav) && this.storage == storage
      ensures selected == "" && rounds == "3" && field == "3" && badges == map[]
      ensures entries == Missions
      ensures Valid()
    {
      lang := DetectInitialLang(storage, nav);
      this.storage := storage;
      selected := "";
      rounds := "3";
      field := "3";
      badges := map[];
      entries := Missions;
    }

    /** `setLang`: normalise, then store. */
    method SetLang(value: JsValue)
      requires Valid()
      modifies this
      ensures lang == NormaliseLang(value) && storage == SetStoredLang(old(storage), Str(lang))
      ensures unchanged(this`selected, this`rounds, this`field, this`badges)
      ensures Valid()
    {
      lang := NormaliseLang(value);
      storage := SetStoredLang(storage, Str(lang));
    }

    /** The `-` button: one round fewer, never below one. */
    method Decrement()
      requires Valid()
      modifies this
      ensures rounds == Stepped(old(rounds), -1, |Missions|) && field == rounds
      ensures unchanged(this`lang, this`storage, this`selected, this`badges)
      ensures Valid() && rounds != ""
    {
      SteppedValid(rounds, -1);
      rounds := Stepped(rounds, -1, |Missions|);
      field := rounds;
    }

    /** The `+` button: one round more, never above the number of missions. */
    method Increment()
      requires Valid()
      modifies this
      ensures rounds == Stepped(old(rounds), 1, |Missions|) && field == rounds
      ensures unchanged(this`lang, this`storage, this`selected, this`badges)
      ensures Valid() && rounds != ""
    {
      SteppedValid(rounds, 1);
      rounds := Stepped(rounds, 1, |Missions|);
      field := rounds;
    }

    /**
     * The `input` listener after the user has typed `typed` into the field: blank clears the
     * count, a digit 1–6 becomes the count, anything else puts the count back in the field.
     * The page as written never attaches this listener (see `AttachListeners`).
     */
    method OnInput(typed: string)
      requires Valid()
      modifies this
      ensures ClassifyInput(typed).Cleared? ==> rounds == "" && field == typed
      ensures ClassifyInput(typed).Accepted? ==> rounds == Trim(typed) && field == typed
      ensures ClassifyInput(typed).Rejected? ==> rounds == old(rounds) && field == old(rounds)
      ensures unchanged(this`lang, this`storage, this`selected, this`badges)
      ensures Valid()
    {
      field := typed;
      match ClassifyInput(typed)
      case Cleared =>
        rounds := "";
      case Accepted(value) =>
        rounds := value;
      case Rejected =>
        field := rounds;
    }

    /**
     * The `blur` listener: the field's text, clamped, becomes the count and the field. Like
     * `OnInput`, never attached by the page as written.
     */
    method OnBlur()
      requires Valid()
      modifies this
      ensures rounds == ClampRounds(old(field), |Missions|) && field == rounds
      ensures unchanged(this`lang, this`storage, this`selected, this`badges)
      ensures Valid() && rounds != ""
    {
      ClampRoundsValid(field);
      rounds := ClampRounds(field, |Missions|);
      field := rounds;
    }

    /**
     * `pickRandomMission`, with `pick` the injected random index: selects one of the
     * missions and clears the badges; with no missions it does nothing.
     */
    method PickRandomMission(pick: nat)
      requires |entries| > 0 ==> pick < |entries|
      modifies this
      ensures |entries| > 0 ==> selected == entries[pick] && selected in entries && badges == map[]
      ensures |entries| == 0 ==> unchanged(this`selected, this`badges)
      ensures unchanged(this`lang, this`storage, this`rounds, this`field)
      ensures old(Valid()) ==> Valid()
    {
      if |entries| == 0 {
        return;
      }
      selected := entries[pick];
      badges := map[];
    }

    /**
     * `generateRounds`, with `draws` the injected shuffle indices: as many distinct
     * missions as the clamped count, badged in order, the last one selected.
     */
    method GenerateRounds(draws: seq<nat>)
      requires Valid()
      requires ValidDraws(|Missions|, draws)
      modifies this
      ensures var ms := ChosenMissions(draws, RoundsTotal(old(rounds), |Missions|));
        badges == Numbered(ms) && selected == ms[|ms| - 1]
      ensures unchanged(this`lang, this`storage, this`rounds, this`field)
      ensures Valid()
    {
      var total := RoundsTotal(rounds, |Missions|);
      var nextBadges, lastSelected := DrawMissions(total, draws);
      badges := nextBadges;
      selected := lastSelected;
    }
  }

  // ---------------------------------------------------------------------------
  // Event listeners

  /** The page objects `initEventHandlers` reads listeners from: the `elements` entries and more. */
  datatype Element =
    | Brand | FlagEs | FlagEn | RandomBtn | RoundsGroup | RoundsLabel | DecBtn | IncBtn
    | RoundsInput | GenerateBtn | MatchedBtn | BackBtn | Grid | ModalBackdrop | ModalClose
    | ModalFrame | ModalCard | MissionChip | Window | Document

  datatype Event = Click | Input | Blur | Resize | Keydown

  /** One `addEventListener` call of `initEventHandlers`: the object it reads and the event. */
  datatype Listener = Listener(target: Element, event: Event)

  /**
   * The calls of `initEventHandlers`, in order. `MissionChip` stands for the six mission
   * buttons, which come from `missionEntries` and always exist.
   */
  const Registrations: seq<Listener> := [
    Listener(FlagEs, Click), Listener(FlagEn, Click), Listener(RandomBtn, Click),
    Listener(DecBtn, Click), Listener(IncBtn, Click), Listener(GenerateBtn, Click),
    Listener(BackBtn, Click), Listener(MatchedBtn, Click), Listener(MissionChip, Click),
    Listener(ModalBackdrop, Click), Listener(ModalClose, Click), Listener(ModalCard, Click),
    Listener(RoundsInput, Input), Listener(RoundsInput, Blur),
    Listener(Window, Resize), Listener(Document, Keydown)
  ]

  /**
   * Whether an object is there when `initEventHandlers` runs: `buildLayout` copies every
   * element it creates into `elements` except `modalCard`; the mission buttons, `window`
   * and `document` always exist.
   */
  predicate AsWrittenPresent(e: Element) {
    e != ModalCard
  }

  /** With `modalCard` copied into `elements`, as the matched-play screen does, everything is. */
  predicate CorrectedPresent(e: Element) {
    true
  }

  const AsWrittenTargets: set<Element> := set e: Element | AsWrittenPresent(e)
  const CorrectedTargets: set<Element> := set e: Element | CorrectedPresent(e)

  /**
   * The listeners attached when the calls run in order over the `present` targets: an
   * `addEventListener` on a missing element throws, and no later call runs.
   */
  function AttachListeners(regs: seq<Listener>, present: set<Element>): (attached: seq<Listener>)
    ensures |attached| <= |regs| && attached == regs[..|attached|]
    ensures forall k :: 0 <= k < |attached| ==> attached[k].target in present
    ensures |attached| < |regs| ==> regs[|attached|].target !in present
  {
    if |regs| == 0 || regs[0].target !in present then []
    else [regs[0]] + AttachListeners(regs[1..], present)
  }

  /** When every target is present, every listener is attached. */
  lemma {:induction false} AttachAllPresent(regs: seq<Listener>, present: set<Element>)
    requires forall k :: 0 <= k < |regs| ==> regs[k].target in present
    ensures AttachListeners(regs, present) == regs
  {
    if |regs| > 0 {
      AttachAllPresent(regs[1..], present);
    }
  }

  /**
   * As written, the call on `elements.modalCard` throws: the eleven listeners before it are
   * attached, and the rounds field's `input` and `blur` listeners never are.
   */
  lemma AsWrittenListeners()
    ensures AttachListeners(Registrations, AsWrittenTargets) == Registrations[..11]
    ensures Listener(RoundsInput, Input) !in AttachListeners(Registrations, AsWrittenTargets)
    ensures Listener(RoundsInput, Blur) !in AttachListeners(Registrations, AsWrittenTargets)
  {
    assert Registrations[11].target == ModalCard;
    PresentPrefix(Registrations, AsWrittenTargets, 11);
    var attached := Registrations[..11];
    forall k | 0 <= k < 11 ensures attached[k].target != RoundsInput {
      assert attached[k] == Registrations[k];
    }
    NoListenerOn(attached, RoundsInput);
  }

  /** A target none of whose calls ran has no listener. */
  lemma NoListenerOn(attached: seq<Listener>, t: Element)
    requires forall k :: 0 <= k < |attached| ==> attached[k].target != t
    ensures forall e :: Listener(t, e) !in attached
  {
  }

  /** The calls up to the first missing target are exactly the attached ones. */
  lemma PresentPrefix(regs: seq<Listener>, present: set<Element>, n: nat)
    requires n < |regs| && regs[n].target !in present
    requires forall k :: 0 <= k < n ==> regs[k].target in present
    ensures AttachListeners(regs, present) == regs[..n]
  {
    var attached := AttachListeners(regs, present);
    if |attached| < n {
      assert regs[|attached|].target in present;
    }
  }

  /** With `modalCard` among the targets, every listener of the screen is attached. */
  lemma CorrectedListeners()
    ensures AttachListeners(Registrations, CorrectedTargets) == Registrations
  {
    AttachAllPresent(Registrations, CorrectedTargets);
  }
}
