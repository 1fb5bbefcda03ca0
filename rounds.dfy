/**
 * The rounds counter both mission screens share (js/MisionesMatched.js and
 * js/Matched2vs2.js): `clampRoundsValue`, the `−`/`+` stepper, the text field's `input`
 * and `blur` handlers, and the numbering of the chosen missions into badges.
 */
module Rounds {
  import opened JsText
  import opened FisherYates

  /** `parseInt(value || '3', 10)`: an empty string reads as the default `'3'`. */
  function ParseRounds(value: string): Option<int> {
    ParseInt(if value == "" then "3" else value)
  }

  /**
   * `r` is the decimal rendering of an integer between 1 and `upper`, as
   * `String(Math.min(upper, Math.max(1, parsed)))` produces it.
   */
  predicate IsRoundsCount(r: string, upper: int) {
    ParseInt(r).Some? && 1 <= ParseInt(r).value <= upper && r == IntToString(ParseInt(r).value)
  }

  /** The rendering of an integer between 1 and `upper` is a rounds count. */
  lemma RoundsCountOf(n: int, upper: int)
    requires 1 <= n <= upper
    ensures IsRoundsCount(IntToString(n), upper)
  {
    ParseIntOfString(n);
  }

  /**
   * `clampRoundsValue`, with the upper bound the screen uses (`6` on one screen,
   * `MISSIONS.length` on the other): NaN gives `'3'`, any number is clamped into
   * `1..upper`.
   */
  function ClampRounds(value: string, upper: int): (r: string)
    ensures upper >= 3 ==> IsRoundsCount(r, upper)
  {
    var parsed := ParseRounds(value);
    if parsed.None? then
      SmallNumberStrings();
      ParseIntOfString(3);
      "3"
    else
      var n := Min(upper, Max(1, parsed.value));
      ParseIntOfString(n);
      IntToString(n)
  }

  /**
   * The result of `clampRoundsValue` is always the decimal rendering of an integer in
   * `1..upper`; input with no leading integer gives `'3'`, and a number is clamped.
   */
  lemma ClampRoundsSpec(value: string, upper: int)
    ensures ParseRounds(value).None? ==> ClampRounds(value, upper) == "3"
    ensures upper >= 3 ==> IsRoundsCount(ClampRounds(value, upper), upper)
    ensures ParseRounds(value).Some? ==>
      ParseInt(ClampRounds(value, upper)) == Some(Min(upper, Max(1, ParseRounds(value).value)))
  {
    var parsed := ParseRounds(value);
    if parsed.None? {
      RoundsCountOf(3, Max(upper, 3));
      SmallNumberStrings();
    } else {
      var n := Min(upper, Max(1, parsed.value));
      ParseIntOfString(n);
      if upper >= 3 {
        RoundsCountOf(n, upper);
      }
    }
  }

  /** An empty field, or one with no leading integer, reverts to the default. */
  lemma ClampRoundsDefault(value: string, upper: int)
    requires upper >= 3
    requires value == "" || ParseInt(value).None?
    ensures ClampRounds(value, upper) == "3"
  {
    if value == "" {
      SmallNumberStrings();
      ParseIntOfString(3);
      assert ParseRounds(value) == Some(3);
    }
  }

  /** A rounds count already in range comes back unchanged. */
  lemma ClampRoundsKeepsCount(r: string, upper: int)
    requires upper >= 1 && IsRoundsCount(r, upper)
    ensures ClampRounds(r, upper) == r
  {
    assert r != "";
    ClampRoundsSpec(r, upper);
  }

  /** Clamping twice is clamping once. */
  lemma ClampRoundsIdempotent(value: string, upper: int)
    requires upper >= 3
    ensures ClampRounds(ClampRounds(value, upper), upper) == ClampRounds(value, upper)
  {
    ClampRoundsSpec(value, upper);
    ClampRoundsKeepsCount(ClampRounds(value, upper), upper);
  }

  /** `parseInt(clampRoundsValue(rounds), 10)`: how many rounds `generateRounds` makes. */
  function RoundsTotal(rounds: string, upper: int): (total: nat)
    requires upper >= 3
    ensures 1 <= total <= upper
  {
    ClampRoundsSpec(rounds, upper);
    ParseInt(ClampRounds(rounds, upper)).value
  }

  /** The total is the count `clampRoundsValue` shows, read back. */
  lemma RoundsTotalRendered(rounds: string, upper: int)
    requires upper >= 3
    ensures IntToString(RoundsTotal(rounds, upper)) == ClampRounds(rounds, upper)
  {
    ClampRoundsSpec(rounds, upper);
  }

  // ---------------------------------------------------------------------------
  // Stepper

  /**
   * The `−` (`delta = -1`) and `+` (`delta = 1`) buttons:
   * `clampRoundsValue(String(parseInt(rounds || '3', 10) + delta))`; a NaN count renders
   * as `'NaN'`, which clamps back to the default.
   */
  function Stepped(rounds: string, delta: int, upper: int): (r: string)
    ensures upper >= 3 ==> IsRoundsCount(r, upper)
  {
    var parsed := ParseRounds(rounds);
    ClampRounds(NumberToString(if parsed.None? then None else Some(parsed.value + delta)), upper)
  }

  /** `parseInt('NaN', 10)` is NaN. */
  lemma NaNIsNaN()
    ensures ParseInt("NaN") == None
  {
    assert SkipSpaceForward("NaN", 0) == 0;
  }

  /**
   * From a count `n` within range, a step lands on `n + delta` clamped into `1..upper`;
   * from text with no leading integer it falls back to `'3'`.
   */
  lemma SteppedSpec(rounds: string, delta: int, upper: int)
    requires upper >= 1
    ensures upper >= 3 ==> IsRoundsCount(Stepped(rounds, delta, upper), upper)
    ensures ParseRounds(rounds).None? ==> Stepped(rounds, delta, upper) == "3"
    ensures ParseRounds(rounds).Some? ==>
      ParseInt(Stepped(rounds, delta, upper)) == Some(Min(upper, Max(1, ParseRounds(rounds).value + delta)))
  {
    var parsed := ParseRounds(rounds);
    if parsed.None? {
      NaNIsNaN();
      ClampRoundsSpec("NaN", upper);
    } else {
      var s := IntToString(parsed.value + delta);
      ParseIntOfString(parsed.value + delta);
      assert s != "";
      ClampRoundsSpec(s, upper);
    }
  }

  /** Decrementing `'1'` stays at `'1'`. */
  lemma SteppedDownAtOne(upper: int)
    requires upper >= 1
    ensures Stepped("1", -1, upper) == "1"
  {
    SmallNumberStrings();
    ParseIntOfString(1);
    ParseIntOfString(0);
    assert ParseRounds("1") == Some(1);
    assert NumberToString(Some(0)) == "0";
    assert ParseRounds("0") == Some(0);
    assert ClampRounds("0", upper) == IntToString(1);
  }

  /** Incrementing the top count stays at the top. */
  lemma SteppedUpAtTop(upper: int)
    requires upper >= 1
    ensures Stepped(IntToString(upper), 1, upper) == IntToString(upper)
  {
    var top := IntToString(upper);
    ParseIntOfString(upper);
    assert ParseRounds(top) == Some(upper);
    var next := IntToString(upper + 1);
    assert NumberToString(Some(upper + 1)) == next;
    ParseIntOfString(upper + 1);
    assert ParseRounds(next) == Some(upper + 1);
    assert ClampRounds(next, upper) == top;
  }

  // ---------------------------------------------------------------------------
  // Text field

  /** `/^[1-6]$/`: exactly one digit from 1 to 6. */
  predicate IsRoundsDigit(s: string) {
    |s| == 1 && '1' <= s[0] <= '6'
  }

  /** What the `input` handler may leave in `state.rounds`: nothing, or one digit 1–6. */
  predicate ValidRounds(r: string) {
    r == "" || IsRoundsDigit(r)
  }

  /** The three ways the `input` handler reacts to the field's text. */
  datatype InputOutcome = Cleared | Accepted(count: string) | Rejected

  /**
   * The `input` handler's decision on the trimmed text: empty clears the count, a single
   * digit 1–6 becomes the count, anything else is rejected.
   */
  function ClassifyInput(typed: string): (o: InputOutcome)
    ensures o.Cleared? <==> Trim(typed) == ""
    ensures o.Accepted? <==> IsRoundsDigit(Trim(typed))
    ensures o.Accepted? ==> o.count == Trim(typed)
  {
    var value := Trim(typed);
    if value == "" then Cleared
    else if IsRoundsDigit(value) then Accepted(value)
    else Rejected
  }

  /** What the handler stores is always valid, and text with stray characters is rejected. */
  lemma ClassifyInputValid(typed: string)
    ensures ClassifyInput(typed).Accepted? ==> ValidRounds(ClassifyInput(typed).count)
    ensures |Trim(typed)| >= 2 ==> ClassifyInput(typed).Rejected?
    ensures ClassifyInput(" 4 ") == Accepted("4")
    ensures ClassifyInput("7") == Rejected
  {
    assert Trim(" 4 ") == "4" by {
      assert SkipSpaceForward(" 4 ", 0) == 1;
      assert SkipSpaceBackward(" 4 ", 1, 3) == 2;
    }
    assert Trim("7") == "7" by {
      TrimmedIsFixed("7");
    }
  }

  /** Every clamped count is one digit 1–6, so the stepper and `blur` keep the count valid. */
  lemma CountIsValidRounds(r: string)
    requires IsRoundsCount(r, 6)
    ensures ValidRounds(r) && r != ""
  {
    SmallNumberStrings();
    var n := ParseInt(r).value;
    assert n == 1 || n == 2 || n == 3 || n == 4 || n == 5 || n == 6;
  }

  /** After `blur` the count is one digit 1–6. */
  lemma ClampRoundsValid(value: string)
    ensures ValidRounds(ClampRounds(value, 6)) && ClampRounds(value, 6) != ""
  {
    ClampRoundsSpec(value, 6);
    CountIsValidRounds(ClampRounds(value, 6));
  }

  /** After a step the count is one digit 1–6. */
  lemma SteppedValid(rounds: string, delta: int)
    ensures ValidRounds(Stepped(rounds, delta, 6)) && Stepped(rounds, delta, 6) != ""
  {
    SteppedSpec(rounds, delta, 6);
    CountIsValidRounds(Stepped(rounds, delta, 6));
  }

  /** A valid nonempty count is in range, so clamping it changes nothing. */
  lemma ValidRoundsIsCount(r: string)
    requires ValidRounds(r) && r != ""
    ensures IsRoundsCount(r, 6)
  {
    SmallNumberStrings();
    var n := DigitValue(r[0]);
    assert r == IntToString(n);
    RoundsCountOf(n, 6);
  }

  // ---------------------------------------------------------------------------
  // Badges

  /**
   * `chosen.forEach((m, order) => nextBadges[m] = order + 1)` starting from `{}`: the
   * mission at position `k` gets badge `k + 1`, a later position overwriting an earlier.
   */
  function Numbered(ms: seq<string>): (badges: map<string, int>)
    ensures forall m :: m in badges ==> m in ms && 1 <= badges[m] <= |ms|
  {
    if ms == [] then map[]
    else
      var init := ms[..|ms| - 1];
      assert forall m :: m in init ==> m in ms;
      Numbered(init)[ms[|ms| - 1] := |ms|]
  }

  /**
   * The badged missions are exactly the listed ones, every badge is in `1..|ms|`, and the
   * last mission carries badge `|ms|`.
   */
  lemma {:induction false} NumberedSpec(ms: seq<string>)
    ensures Numbered(ms).Keys == set m | m in ms
    ensures forall m :: m in Numbered(ms) ==> 1 <= Numbered(ms)[m] <= |ms|
    ensures |ms| > 0 ==> Numbered(ms)[ms[|ms| - 1]] == |ms|
  {
    if ms != [] {
      var init := ms[..|ms| - 1];
      NumberedSpec(init);
      assert forall m :: m in ms <==> m in init || m == ms[|ms| - 1];
    }
  }

  /** One more mission badged: the map grows by that mission's number. */
  lemma NumberedSnoc(ms: seq<string>, m: string)
    ensures Numbered(ms + [m]) == Numbered(ms)[m := |ms| + 1]
  {
    assert (ms + [m])[..|ms|] == ms;
  }

  /** Badging one more mission of the same list. */
  lemma NumberedPrefix(ms: seq<string>, k: nat)
    requires k < |ms|
    ensures Numbered(ms[..k + 1]) == Numbered(ms[..k])[ms[k] := k + 1]
  {
    assert ms[..k + 1] == ms[..k] + [ms[k]];
    NumberedSnoc(ms[..k], ms[k]);
  }

  /**
   * With no mission repeated, the badges number the missions `1..|ms|` in order: one
   * badge per mission, and every number in `1..|ms|` used once.
   */
  lemma {:induction false} NumberedDistinct(ms: seq<string>)
    requires Distinct(ms)
    ensures forall k :: 0 <= k < |ms| ==> ms[k] in Numbered(ms) && Numbered(ms)[ms[k]] == k + 1
    ensures |Numbered(ms)| == |ms|
  {
    if ms != [] {
      var init := ms[..|ms| - 1];
      var last := ms[|ms| - 1];
      assert Distinct(init);
      NumberedDistinct(init);
      NumberedSpec(init);
      assert last !in init by {
        forall k | 0 <= k < |init| ensures init[k] != last {
          assert init[k] == ms[k];
        }
      }
      forall k | 0 <= k < |ms| ensures ms[k] in Numbered(ms) && Numbered(ms)[ms[k]] == k + 1 {
        if k < |ms| - 1 {
          assert ms[k] == init[k];
        }
      }
    }
  }
}
