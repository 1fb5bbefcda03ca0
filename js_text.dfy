/**
 * Models of the JavaScript built-ins the site's scripts lean on: truthiness,
 * `String.prototype.trim`, ASCII case mapping, `split`, `includes`, `parseInt(s, 10)`
 * and `String(n)` for integers.
 */
module JsText {

  datatype Option<+T> = None | Some(value: T)

  /** A JavaScript value, with only the distinctions the scripts test. */
  datatype JsValue = Undefined | Null | Bool(b: bool) | Number(n: int) | Str(s: string)

  /** JavaScript truthiness, as used by `if (v)` and `v || w` (NaN is not represented). */
  predicate Truthy(v: JsValue) {
    match v
    case Undefined => false
    case Null => false
    case Bool(b) => b
    case Number(n) => n != 0
    case Str(s) => s != ""
  }

  function Min(a: int, b: int): int { if a <= b then a else b }
  function Max(a: int, b: int): int { if a >= b then a else b }

  // ---------------------------------------------------------------------------
  // Whitespace and trim

  /** ECMAScript WhiteSpace and LineTerminator code points (what `trim` removes). */
  predicate IsWhitespace(c: char) {
    var n := c as int;
    n == 0x09 || n == 0x0A || n == 0x0B || n == 0x0C || n == 0x0D || n == 0x20
    || n == 0xA0 || n == 0x1680 || (0x2000 <= n <= 0x200A) || n == 0x2028 || n == 0x2029
    || n == 0x202F || n == 0x205F || n == 0x3000 || n == 0xFEFF
  }

  /** The first position at or after `i` that does not hold whitespace (or `|s|`). */
  function SkipSpaceForward(s: string, i: nat): (j: nat)
    requires i <= |s|
    ensures i <= j <= |s|
    decreases |s| - i
  {
    if i < |s| && IsWhitespace(s[i]) then SkipSpaceForward(s, i + 1) else i
  }

  /** The end of `s[lo..j]` once its trailing whitespace is dropped. */
  function SkipSpaceBackward(s: string, lo: nat, j: nat): (k: nat)
    requires lo <= j <= |s|
    ensures lo <= k <= j
  {
    if lo < j && IsWhitespace(s[j - 1]) then SkipSpaceBackward(s, lo, j - 1) else j
  }

  /** Forward skipping passes whitespace only, and stops at a character that is not. */
  lemma {:induction false} SkipSpaceForwardSpec(s: string, i: nat)
    requires i <= |s|
    ensures var j := SkipSpaceForward(s, i);
      && (forall k :: i <= k < j ==> IsWhitespace(s[k]))
      && (j == |s| || !IsWhitespace(s[j]))
    decreases |s| - i
  {
    if i < |s| && IsWhitespace(s[i]) {
      SkipSpaceForwardSpec(s, i + 1);
    }
  }

  /** Backward skipping passes whitespace only, and stops after a character that is not. */
  lemma {:induction false} SkipSpaceBackwardSpec(s: string, lo: nat, j: nat)
    requires lo <= j <= |s|
    ensures var k := SkipSpaceBackward(s, lo, j);
      && (forall m :: k <= m < j ==> IsWhitespace(s[m]))
      && (k == lo || !IsWhitespace(s[k - 1]))
  {
    if lo < j && IsWhitespace(s[j - 1]) {
      SkipSpaceBackwardSpec(s, lo, j - 1);
    }
  }

  /** `s.trimStart()`: the suffix left after dropping leading whitespace. */
  function TrimStart(s: string): (r: string)
  {
    s[SkipSpaceForward(s, 0)..]
  }

  /** Where the trimmed text starts. */
  function TrimLo(s: string): (lo: nat)
    ensures lo <= |s|
  {
    SkipSpaceForward(s, 0)
  }

  /** Where the trimmed text ends. */
  function TrimHi(s: string): (hi: nat)
    ensures TrimLo(s) <= hi <= |s|
  {
    SkipSpaceBackward(s, TrimLo(s), |s|)
  }

  /** `s.trim()`. */
  function Trim(s: string): string
  {
    s[TrimLo(s)..TrimHi(s)]
  }

  /** `trim` removes whitespace only, from both ends only, and leaves none at either end. */
  lemma TrimSpec(s: string)
    ensures var lo, hi := TrimLo(s), TrimHi(s);
      && (forall i :: 0 <= i < lo ==> IsWhitespace(s[i]))
      && (forall i :: hi <= i < |s| ==> IsWhitespace(s[i]))
      && (lo < hi ==> !IsWhitespace(s[lo]) && !IsWhitespace(s[hi - 1]))
  {
    SkipSpaceForwardSpec(s, 0);
    SkipSpaceBackwardSpec(s, TrimLo(s), |s|);
  }

  /**
   * Text that starts and ends with a non-whitespace character comes back whole from `trim`,
   * however much whitespace surrounds it.
   */
  lemma TrimPadded(pre: string, core: string, post: string)
    requires forall c :: c in pre ==> IsWhitespace(c)
    requires forall c :: c in post ==> IsWhitespace(c)
    requires |core| > 0 && !IsWhitespace(core[0]) && !IsWhitespace(core[|core| - 1])
    ensures Trim(pre + core + post) == core
  {
    var s := pre + core + post;
    var e := |pre| + |core|;
    assert forall k :: 0 <= k < |pre| ==> s[k] in pre;
    assert forall k :: e <= k < |s| ==> s[k] in post;
    assert s[|pre|] == core[0] && s[e - 1] == core[|core| - 1];
    SkipSpaceForwardSpec(s, 0);
    var lo := TrimLo(s);
    assert lo == |pre|;
    SkipSpaceBackwardSpec(s, lo, |s|);
    assert TrimHi(s) == e;
    assert s[|pre|..e] == core;
  }

  /** A string trims to nothing exactly when every character of it is whitespace. */
  lemma TrimEmptyIffBlank(s: string)
    ensures Trim(s) == "" <==> forall i :: 0 <= i < |s| ==> IsWhitespace(s[i])
  {
    TrimSpec(s);
    var lo, hi := TrimLo(s), TrimHi(s);
    if lo < hi {
      assert !IsWhitespace(s[lo]);
    } else {
      forall i | 0 <= i < |s| ensures IsWhitespace(s[i]) {
        if i >= lo {
          assert i >= hi;
        }
      }
    }
  }

  /** Text with no whitespace at either end is its own trim. */
  lemma TrimmedIsFixed(s: string)
    requires |s| == 0 || (!IsWhitespace(s[0]) && !IsWhitespace(s[|s| - 1]))
    ensures Trim(s) == s
  {
  }

  /** Trimming twice is trimming once. */
  lemma TrimIdempotent(s: string)
    ensures Trim(Trim(s)) == Trim(s)
  {
    var r := Trim(s);
    TrimSpec(s);
    if |r| > 0 {
      assert r[0] == s[TrimLo(s)];
      assert r[|r| - 1] == s[TrimHi(s) - 1];
    }
    TrimmedIsFixed(r);
  }

  // ---------------------------------------------------------------------------
  // Case mapping (ASCII letters only)

  function LowerChar(c: char): char {
    if 'A' <= c <= 'Z' then (c as int + 32) as char else c
  }

  function UpperChar(c: char): char {
    if 'a' <= c <= 'z' then (c as int - 32) as char else c
  }

  /** `s.toLowerCase()` on ASCII letters. */
  function ToLower(s: string): (r: string)
    ensures |r| == |s| && forall i :: 0 <= i < |s| ==> r[i] == LowerChar(s[i])
  {
    seq(|s|, i requires 0 <= i < |s| => LowerChar(s[i]))
  }

  /** `s.toUpperCase()` on ASCII letters. */
  function ToUpper(s: string): (r: string)
    ensures |r| == |s| && forall i :: 0 <= i < |s| ==> r[i] == UpperChar(s[i])
  {
    seq(|s|, i requires 0 <= i < |s| => UpperChar(s[i]))
  }

  /** Lower-casing forgets whatever case the text had: upper-casing first changes nothing. */
  lemma LowerForgetsCase(s: string)
    ensures ToLower(ToUpper(s)) == ToLower(s)
    ensures ToLower(ToLower(s)) == ToLower(s)
  {
    assert forall i :: 0 <= i < |s| ==> LowerChar(UpperChar(s[i])) == LowerChar(s[i]);
    assert forall i :: 0 <= i < |s| ==> LowerChar(LowerChar(s[i])) == LowerChar(s[i]);
  }

  // ---------------------------------------------------------------------------
  // Searching

  predicate StartsWith(s: string, p: string) {
    |p| <= |s| && s[..|p|] == p
  }

  /** `s.includes(p)`. */
  predicate Contains(s: string, p: string)
    decreases |s|
  {
    StartsWith(s, p) || (|s| > 0 && Contains(s[1..], p))
  }

  /** `p` occurs in `s` starting at index `i`. */
  predicate OccursAt(s: string, p: string, i: int) {
    0 <= i <= |s| - |p| && s[i..i + |p|] == p
  }

  /** `includes` holds exactly when `p` occurs at some position of `s`. */
  lemma {:induction false} ContainsAt(s: string, p: string)
    ensures Contains(s, p) <==> exists i :: OccursAt(s, p, i)
    decreases |s|
  {
    if StartsWith(s, p) {
      assert OccursAt(s, p, 0);
    } else if |s| > 0 {
      ContainsAt(s[1..], p);
      if Contains(s[1..], p) {
        var i :| OccursAt(s[1..], p, i);
        assert s[i + 1..i + 1 + |p|] == s[1..][i..i + |p|];
        assert OccursAt(s, p, i + 1);
      } else {
        forall i | OccursAt(s, p, i)
          ensures false
        {
          if i > 0 {
            assert s[1..][i - 1..i - 1 + |p|] == s[i..i + |p|];
            assert OccursAt(s[1..], p, i - 1);
          }
        }
      }
    }
  }

  // ---------------------------------------------------------------------------
  // Split and join on one character

  /** Index of the first `c` in `s`, or `|s|` when there is none. */
  function IndexOf(s: string, c: char): (i: nat)
    ensures i <= |s|
    ensures i < |s| ==> s[i] == c
    ensures forall k :: 0 <= k < i ==> s[k] != c
  {
    if |s| == 0 || s[0] == c then 0 else 1 + IndexOf(s[1..], c)
  }

  /** `s.split(c)` for a one-character separator. */
  function Split(s: string, c: char): (parts: seq<string>)
    ensures |parts| >= 1
    decreases |s|
  {
    var i := IndexOf(s, c);
    if i == |s| then [s] else [s[..i]] + Split(s[i + 1..], c)
  }

  /** No piece of a split holds the separator. */
  lemma {:induction false} SplitPiecesFree(s: string, c: char)
    ensures forall k :: 0 <= k < |Split(s, c)| ==> c !in Split(s, c)[k]
    decreases |s|
  {
    var i := IndexOf(s, c);
    if i < |s| {
      SplitPiecesFree(s[i + 1..], c);
      assert Split(s, c) == [s[..i]] + Split(s[i + 1..], c);
    } else {
      assert Split(s, c) == [s];
    }
  }

  /** `parts.join(c)`. */
  function Join(parts: seq<string>, c: char): string
  {
    if |parts| == 0 then ""
    else if |parts| == 1 then parts[0]
    else parts[0] + [c] + Join(parts[1..], c)
  }

  /** Number of occurrences of `c` in `s`. */
  function CountChar(s: string, c: char): nat {
    if |s| == 0 then 0 else (if s[0] == c then 1 else 0) + CountChar(s[1..], c)
  }

  lemma {:induction false} CountCharAppend(a: string, b: string, c: char)
    ensures CountChar(a + b, c) == CountChar(a, c) + CountChar(b, c)
  {
    if |a| > 0 {
      assert (a + b)[1..] == a[1..] + b;
      CountCharAppend(a[1..], b, c);
    } else {
      assert a + b == b;
    }
  }

  lemma {:induction false} CountCharAbsent(s: string, c: char)
    requires c !in s
    ensures CountChar(s, c) == 0
  {
    if |s| > 0 {
      assert s[0] in s;
      CountCharAbsent(s[1..], c);
    }
  }

  /** A string is what comes before position `i`, the character there, and what follows. */
  lemma Around(s: string, i: nat, c: char)
    requires i < |s| && s[i] == c
    ensures s[..i] + [c] + s[i + 1..] == s
  {
  }

  /** Joining a piece in front of at least one more puts a separator between them. */
  lemma JoinCons(p: string, rest: seq<string>, c: char)
    requires |rest| >= 1
    ensures Join([p] + rest, c) == p + [c] + Join(rest, c)
  {
    assert ([p] + rest)[1..] == rest;
  }

  /** Joining the pieces of a split gives back the original text. */
  lemma {:induction false} JoinSplit(s: string, c: char)
    ensures Join(Split(s, c), c) == s
    decreases |s|
  {
    var i := IndexOf(s, c);
    if i < |s| {
      var rest := Split(s[i + 1..], c);
      JoinSplit(s[i + 1..], c);
      assert Split(s, c) == [s[..i]] + rest;
      JoinCons(s[..i], rest, c);
      Around(s, i, c);
    } else {
      assert Split(s, c) == [s];
    }
  }

  /** Splitting a join of separator-free pieces gives back the pieces. */
  lemma {:induction false} SplitJoin(parts: seq<string>, c: char)
    requires |parts| >= 1
    requires forall k :: 0 <= k < |parts| ==> c !in parts[k]
    ensures Split(Join(parts, c), c) == parts
    decreases |parts|
  {
    var s := Join(parts, c);
    if |parts| == 1 {
      assert IndexOf(s, c) == |s|;
    } else {
      var tail := Join(parts[1..], c);
      assert s == parts[0] + [c] + tail;
      var p := parts[0];
      assert s[|p|] == c;
      assert forall k :: 0 <= k < |p| ==> s[k] == p[k];
      assert IndexOf(s, c) == |p|;
      assert s[..|p|] == p;
      assert s[|p| + 1..] == tail;
      SplitJoin(parts[1..], c);
      assert parts == [p] + parts[1..];
    }
  }

  /** `split` yields one more piece than there are separators. */
  lemma {:induction false} SplitCount(s: string, c: char)
    ensures |Split(s, c)| == CountChar(s, c) + 1
    decreases |s|
  {
    var i := IndexOf(s, c);
    assert c !in s[..i];
    CountCharAbsent(s[..i], c);
    if i == |s| {
      assert s[..i] == s;
    } else {
      SplitCount(s[i + 1..], c);
      assert s == s[..i] + ([c] + s[i + 1..]);
      CountCharAppend(s[..i], [c] + s[i + 1..], c);
      assert ([c] + s[i + 1..])[1..] == s[i + 1..];
    }
  }

  // ---------------------------------------------------------------------------
  // Character replacement (the two `replace(/x/g, …)` calls of the PDF lookup)

  /** `s.replace(/a/g, b)` for single characters. */
  function ReplaceChar(s: string, a: char, b: char): (r: string)
    ensures |r| == |s|
    ensures forall i :: 0 <= i < |s| ==> r[i] == (if s[i] == a then b else s[i])
  {
    seq(|s|, i requires 0 <= i < |s| => if s[i] == a then b else s[i])
  }

  /** `s.replace(/a/g, '')`. */
  function RemoveChar(s: string, a: char): (r: string)
    ensures a !in r
    ensures |r| == |s| - CountChar(s, a)
  {
    if |s| == 0 then ""
    else if s[0] == a then RemoveChar(s[1..], a)
    else [s[0]] + RemoveChar(s[1..], a)
  }

  // ---------------------------------------------------------------------------
  // Decimal numbers

  predicate IsDigit(c: char) { '0' <= c <= '9' }

  predicate AllDigits(s: string) { forall i :: 0 <= i < |s| ==> IsDigit(s[i]) }

  function DigitValue(c: char): nat
    requires IsDigit(c)
  {
    c as int - '0' as int
  }

  function DigitChar(d: nat): (c: char)
    requires d < 10
    ensures IsDigit(c) && DigitValue(c) == d
  {
    ('0' as int + d) as char
  }

  /** The longest prefix of `s` made of decimal digits. */
  function DigitPrefix(s: string): (r: string)
    ensures AllDigits(r)
  {
    if |s| > 0 && IsDigit(s[0]) then [s[0]] + DigitPrefix(s[1..]) else ""
  }

  /** The digit prefix is a prefix of `s`, and the character after it is not a digit. */
  lemma {:induction false} DigitPrefixSpec(s: string)
    ensures var r := DigitPrefix(s);
      |r| <= |s| && r == s[..|r|] && (|r| == |s| || !IsDigit(s[|r|]))
  {
    if |s| > 0 && IsDigit(s[0]) {
      DigitPrefixSpec(s[1..]);
    }
  }

  /** The number a digit string denotes. */
  function DigitsValue(ds: string): nat
    requires AllDigits(ds)
  {
    if |ds| == 0 then 0 else DigitsValue(ds[..|ds| - 1]) * 10 + DigitValue(ds[|ds| - 1])
  }

  /**
   * `parseInt(s, 10)`: optional leading whitespace, an optional sign, then the longest
   * run of decimal digits; `None` stands for NaN (no digit there).
   */
  function ParseInt(s: string): Option<int>
  {
    var t := TrimStart(s);
    var digits := ParseDigits(SignDropped(t));
    if digits.None? then None
    else if |t| > 0 && t[0] == '-' then Some(-(digits.value as int))
    else Some(digits.value as int)
  }

  /** `t` without its leading sign, if it has one. */
  function SignDropped(t: string): string {
    if |t| > 0 && (t[0] == '-' || t[0] == '+') then t[1..] else t
  }

  /** The run of digits `t` starts with, read as a number; `None` when there is none. */
  function ParseDigits(t: string): Option<nat> {
    var ds := DigitPrefix(t);
    if |ds| == 0 then None else Some(DigitsValue(ds))
  }

  /** `String(n)` for a non-negative integer. */
  function NatToString(n: nat): (r: string)
    ensures |r| >= 1 && AllDigits(r)
  {
    if n < 10 then [DigitChar(n)] else NatToString(n / 10) + [DigitChar(n % 10)]
  }

  /** `String(n)` for an integer. */
  function IntToString(n: int): (r: string)
    ensures |r| >= 1
  {
    if n < 0 then "-" + NatToString(-n) else NatToString(n)
  }

  /** `String(x)` for a possibly-NaN number. */
  function NumberToString(x: Option<int>): string {
    match x
    case None => "NaN"
    case Some(n) => IntToString(n)
  }

  lemma {:induction false} DigitsValueOfNatToString(n: nat)
    ensures DigitsValue(NatToString(n)) == n
  {
    if n >= 10 {
      var s := NatToString(n);
      assert s[..|s| - 1] == NatToString(n / 10);
      DigitsValueOfNatToString(n / 10);
    }
  }

  lemma {:induction false} DigitPrefixOfDigits(s: string)
    requires AllDigits(s)
    ensures DigitPrefix(s) == s
  {
    if |s| > 0 {
      DigitPrefixOfDigits(s[1..]);
    }
  }

  /** Text that does not start with whitespace is left alone by `trimStart`. */
  lemma TrimStartUnspaced(s: string)
    requires |s| > 0 && !IsWhitespace(s[0])
    ensures TrimStart(s) == s
  {
    assert SkipSpaceForward(s, 0) == 0;
  }

  /** A whole digit string is read as the number it denotes. */
  lemma ParseDigitsOfDigits(ds: string, n: nat)
    requires AllDigits(ds) && |ds| > 0 && DigitsValue(ds) == n
    ensures ParseDigits(ds) == Some(n)
  {
    DigitPrefixOfDigits(ds);
  }

  /** A digit string reads back as the number `n` it denotes. */
  lemma ParseIntOfDigits(ds: string, n: nat)
    requires AllDigits(ds) && |ds| > 0 && DigitsValue(ds) == n
    ensures ParseInt(ds) == Some(n)
  {
    assert IsDigit(ds[0]);
    TrimStartUnspaced(ds);
    ParseDigitsOfDigits(ds, n);
  }

  /** A minus sign followed by a digit string denoting `-n` reads back as `n`. */
  lemma ParseIntOfNegatedDigits(t: string, ds: string, n: int)
    requires n < 0 && AllDigits(ds) && |ds| > 0 && DigitsValue(ds) == -n
    requires |t| > 0 && t[0] == '-' && t[1..] == ds
    ensures ParseInt(t) == Some(n)
  {
    TrimStartUnspaced(t);
    ParseDigitsOfDigits(ds, -n);
  }

  /** A negative integer renders as a minus sign followed by the digits of its magnitude. */
  lemma NegativeRendering(n: int)
    requires n < 0
    ensures var t := IntToString(n);
      |t| > 0 && t[0] == '-' && t[1..] == NatToString(-n)
  {
    var t := IntToString(n);
    assert t == "-" + NatToString(-n);
  }

  /** `parseInt(String(n), 10) === n`: the decimal rendering reads back as the same integer. */
  lemma ParseIntOfString(n: int)
    ensures ParseInt(IntToString(n)) == Some(n)
  {
    if n < 0 {
      DigitsValueOfNatToString(-n);
      NegativeRendering(n);
      ParseIntOfNegatedDigits(IntToString(n), NatToString(-n), n);
    } else {
      DigitsValueOfNatToString(n);
      assert IntToString(n) == NatToString(n);
      ParseIntOfDigits(IntToString(n), n);
    }
  }

  /** The one-digit renderings, spelled out. */
  lemma SmallNumberStrings()
    ensures IntToString(1) == "1" && IntToString(2) == "2" && IntToString(3) == "3"
    ensures IntToString(4) == "4" && IntToString(5) == "5" && IntToString(6) == "6"
    ensures IntToString(0) == "0"
  {
  }
}
