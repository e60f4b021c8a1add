/** The statistic counters (`animateCounter`): the element's text is split
    into a number and a suffix, then a 16 ms interval counts from 0 up to the
    number in `duration / 16` equal steps. Each interval callback is an
    explicit `Tick`; the step and the running value are exact rationals. */
module StatCounter {
  import opened Wrappers
  import opened Text

  const Duration := 2000
  const Interval := 16

  /** Steps in one animation, `duration / 16`; see `TickCountIsDurationOverInterval`. */
  const TickCount := 125

  /** The step count is the duration divided by the interval, with nothing
      left over, so the last step lands exactly on the duration. */
  lemma TickCountIsDurationOverInterval()
    ensures TickCount == Duration / Interval
    ensures TickCount * Interval == Duration
  {
  }

  /** The number the counter runs to and the text kept beside it. */
  datatype Parsed = Parsed(target: nat, suffix: string)

  // -----------------------------------------------------------------------
  // Parsing the element's text
  // -----------------------------------------------------------------------

  /** `[i, j)` is the first maximal run of digits in `s`: the capture of
      `/(\d+)/`. */
  ghost predicate FirstDigitRun(s: string, i: int, j: int) {
    && 0 <= i < j <= |s|
    && AllDigits(s[i..j])
    && (forall k :: 0 <= k < i ==> !IsDigit(s[k]))
    && (j == |s| || !IsDigit(s[j]))
  }

  /** The first run is determined by the text. */
  lemma FirstDigitRunUnique(s: string, i: int, j: int, i': int, j': int)
    requires FirstDigitRun(s, i, j) && FirstDigitRun(s, i', j')
    ensures i == i' && j == j'
  {
    assert s[i..j][0] == s[i] && s[i'..j'][0] == s[i'];
    assert i == i';
    assert forall k :: i <= k < j ==> IsDigit(s[k]) by {
      forall k | i <= k < j ensures IsDigit(s[k]) { assert s[i..j][k - i] == s[k]; }
    }
    assert forall k :: i' <= k < j' ==> IsDigit(s[k]) by {
      forall k | i' <= k < j' ensures IsDigit(s[k]) { assert s[i'..j'][k - i'] == s[k]; }
    }
  }

  /** First index at or after `from` holding a digit. */
  function DigitFrom(s: string, from: nat): (r: Option<nat>)
    ensures r.Some? ==> from <= r.value < |s| && IsDigit(s[r.value])
    ensures r.Some? ==> forall k :: from <= k < r.value ==> !IsDigit(s[k])
    ensures r.None? ==> forall k :: from <= k < |s| ==> !IsDigit(s[k])
    decreases |s| - from
  {
    if from >= |s| then None
    else if IsDigit(s[from]) then Some(from)
    else DigitFrom(s, from + 1)
  }

  /** End of the digit run that goes on from `i`. */
  function RunEnd(s: string, i: nat): (j: nat)
    requires i <= |s|
    ensures i <= j <= |s|
    ensures forall k :: i <= k < j ==> IsDigit(s[k])
    ensures j == |s| || !IsDigit(s[j])
    decreases |s| - i
  {
    if i == |s| || !IsDigit(s[i]) then i else RunEnd(s, i + 1)
  }

  /** `text.match(/(\d+)/)`, as the bounds of the captured run. */
  function MatchDigits(s: string): (r: Option<(nat, nat)>)
    ensures r.None? <==> forall k :: 0 <= k < |s| ==> !IsDigit(s[k])
    ensures r.Some? ==> FirstDigitRun(s, r.value.0, r.value.1)
  {
    match DigitFrom(s, 0)
    case None => None
    case Some(i) =>
      var j := RunEnd(s, i);
      assert AllDigits(s[i..j]) by {
        forall k | 0 <= k < j - i ensures IsDigit(s[i..j][k]) { assert s[i..j][k] == s[i + k]; }
      }
      Some((i, j))
  }

  /** `s.replace(pat, rep)` with a string pattern: only the first occurrence
      is replaced. */
  function ReplaceFirst(s: string, pat: string, rep: string): string {
    match IndexOf(s, pat, 0)
    case None => s
    case Some(p) => s[..p] + rep + s[p + |pat|..]
  }

  /** Searching for the text of the first digit run finds the run itself: no
      earlier index can start it, since no earlier character is a digit. */
  lemma RunIsFirstOccurrence(s: string, i: int, j: int)
    requires FirstDigitRun(s, i, j)
    ensures IndexOf(s, s[i..j], 0) == Some(i)
  {
    var pat := s[i..j];
    assert OccursAt(s, pat, i);
    var r := IndexOf(s, pat, 0);
    assert r.Some?;
    var p := r.value;
    assert p <= i;
    assert s[p] == s[p..p + |pat|][0] == pat[0] == s[i];
  }

  /** `p` is `text` split at its first digit run `[i, j)`: the run's value,
      and the text with the run cut out. */
  ghost predicate SplitAt(text: string, p: Parsed, i: int, j: int) {
    && FirstDigitRun(text, i, j)
    && p.target == DecimalValue(text[i..j])
    && p.suffix == text[..i] + text[j..]
  }

  /** `p` is what splitting `text` at its first digit run gives. */
  ghost predicate ParsedAs(text: string, p: Parsed) {
    exists i, j :: SplitAt(text, p, i, j)
  }

  /** The parse `animateCounter` performs; `None` when the text has no digit,
      in which case the element is left alone. The suffix is the text with
      the run cut out, so anything before the number ends up after it. */
  function Parse(text: string): (r: Option<Parsed>)
    ensures r.None? <==> forall k :: 0 <= k < |text| ==> !IsDigit(text[k])
    ensures r.Some? ==> ParsedAs(text, r.value)
  {
    match MatchDigits(text)
    case None => None
    case Some((i, j)) =>
      var run := text[i..j];
      RunIsFirstOccurrence(text, i, j);
      assert ReplaceFirst(text, run, "") == text[..i] + text[j..];
      var p := Parsed(DecimalValue(run), ReplaceFirst(text, run, ""));
      assert SplitAt(text, p, i, j);
      Some(p)
  }

  /** The text the element ends with, `target + suffix`. */
  function FinalText(p: Parsed): string {
    NatToString(p.target) + p.suffix
  }

  /** A parsed suffix never starts with a digit: it starts with the digit-free
      part before the run, or else with the character that ended the run. */
  lemma {:induction false} SuffixStartsWithNonDigit(text: string, p: Parsed)
    requires Parse(text) == Some(p)
    ensures p.suffix == [] || !IsDigit(p.suffix[0])
  {
    var i, j :| SplitAt(text, p, i, j);
    if p.suffix != [] {
      if i > 0 {
        assert p.suffix[0] == text[0];
      } else {
        assert p.suffix[0] == text[j];
      }
    }
  }

  /** Once the first run is known, so is the parse. */
  lemma ParseOfRun(text: string, i: int, j: int)
    requires FirstDigitRun(text, i, j)
    ensures Parse(text) == Some(Parsed(DecimalValue(text[i..j]), text[..i] + text[j..]))
  {
    assert text[i..j][0] == text[i];
    var r := Parse(text);
    assert r.Some?;
    var i', j' :| SplitAt(text, r.value, i', j');
    FirstDigitRunUnique(text, i, j, i', j');
  }

  /** A number printed in front of a suffix that does not start with a digit
      parses back to that number and suffix. */
  lemma {:induction false} ParseFinalText(p: Parsed)
    requires p.suffix == [] || !IsDigit(p.suffix[0])
    ensures Parse(FinalText(p)) == Some(p)
  {
    var n := NatToString(p.target);
    var t := FinalText(p);
    assert t[0..|n|] == n && t[..0] + t[|n|..] == p.suffix;
    assert |n| < |t| ==> t[|n|] == p.suffix[0];
    ParseOfRun(t, 0, |n|);
    DecimalValueOfNatToString(p.target);
  }

  /** The final text parses back to the same number and suffix, so the counter
      is stable when its text is parsed again. */
  lemma {:induction false} FinalTextReparses(text: string, p: Parsed)
    requires Parse(text) == Some(p)
    ensures Parse(FinalText(p)) == Some(p)
  {
    SuffixStartsWithNonDigit(text, p);
    ParseFinalText(p);
  }

  /** `DecimalValue` of the numeral `"1234"`. */
  lemma Value1234()
    ensures DecimalValue("1234") == 1234
    ensures NatToString(1234) == "1234"
  {
    assert "1234"[..3] == "123" && "123"[..2] == "12" && "12"[..1] == "1";
    assert NatToString(1) == "1";
    assert NatToString(12) == "12";
    assert NatToString(123) == "123";
  }

  /** `"$1234+"` becomes `1234` and `"$+"`; the counter ends on `"1234$+"`. */
  lemma PrefixMovesAfterNumber()
    ensures Parse("$1234+") == Some(Parsed(1234, "$+"))
    ensures FinalText(Parsed(1234, "$+")) == "1234$+"
  {
    var text := "$1234+";
    assert FirstDigitRun(text, 1, 5);
    ParseOfRun(text, 1, 5);
    assert text[1..5] == "1234" && text[..1] + text[5..] == "$+";
    Value1234();
  }

  // -----------------------------------------------------------------------
  // The interval
  // -----------------------------------------------------------------------

  /** A running animation: target and suffix, the accumulated `current`, the
      element's text, and whether the interval is still set. */
  datatype Anim = Anim(target: nat, suffix: string, current: real, text: string, running: bool)

  /** `target / (duration / 16)`. */
  function StepSize(target: nat): real {
    target as real / TickCount as real
  }

  /** The element as it is when it scrolls into view: `None` when its text
      holds no number, otherwise an animation at 0 showing the original text. */
  function Start(text: string): (r: Option<Anim>)
    ensures r.None? <==> Parse(text).None?
    ensures r.Some? ==> r.value.running && r.value.current == 0.0 && r.value.text == text
    ensures r.Some? ==>
      (Parse(text).Some?
       && r.value.target == Parse(text).value.target
       && r.value.suffix == Parse(text).value.suffix)
  {
    match Parse(text)
    case None => None
    case Some(p) => Some(Anim(p.target, p.suffix, 0.0, text, true))
  }

  /** One interval callback: add the step; on reaching the target show it
      exactly and clear the interval, else show the floor of the value. */
  function Tick(a: Anim): Anim {
    if !a.running then a
    else
      var c := a.current + StepSize(a.target);
      if c >= a.target as real then
        a.(current := c, text := FinalText(Parsed(a.target, a.suffix)), running := false)
      else
        a.(current := c, text := IntToString(c.Floor) + a.suffix)
  }

  function Ticks(a: Anim, k: nat): Anim {
    if k == 0 then a else Tick(Ticks(a, k - 1))
  }

  /** The tick on which the interval is cleared. */
  function StopTick(target: nat): nat {
    if target == 0 then 1 else TickCount
  }

  /** The number displayed after tick `k`, before the last one. */
  function Shown(target: nat, k: nat): nat {
    k * target / TickCount
  }

  /** The exact value of `current` after `k` ticks. */
  function Value(target: nat, k: nat): real {
    (k * target) as real / TickCount as real
  }

  /** Adding one step moves the value on by one tick. */
  lemma ValueStep(target: nat, k: nat)
    ensures Value(target, k) + StepSize(target) == Value(target, k + 1)
  {
    assert (k + 1) * target == k * target + target;
  }

  /** Before the last tick the value is below the target and its floor is
      the shown number, itself below the target. */
  lemma ValueBelowTarget(target: nat, k: nat)
    requires target > 0 && k < TickCount
    ensures Value(target, k) < target as real
    ensures Value(target, k).Floor == Shown(target, k)
    ensures Shown(target, k) < target
  {
    var n := k * target;
    assert n < TickCount * target;
    var q, r := n / TickCount, n % TickCount;
    assert n == TickCount * q + r;
    assert n as real / TickCount as real == q as real + r as real / TickCount as real;
  }

  /** On the stopping tick the value has reached the target. */
  lemma ValueAtStop(target: nat)
    ensures Value(target, StopTick(target)) >= target as real
  {
  }

  /** After `k` ticks of an animation started at 0 the value is exactly
      `k * target / 125`, and the interval is still set until tick
      `StopTick`. */
  lemma {:induction false} TicksValue(a: Anim, k: nat)
    requires a.running && a.current == 0.0
    ensures var b := Ticks(a, k);
      && b.target == a.target && b.suffix == a.suffix
      && (b.running <==> k < StopTick(a.target))
      && (k <= StopTick(a.target) ==> b.current == Value(a.target, k))
    decreases k
  {
    var t := a.target;
    if k > 0 {
      TicksValue(a, k - 1);
      var prev := Ticks(a, k - 1);
      if k <= StopTick(t) {
        ValueStep(t, k - 1);
        if k < StopTick(t) {
          ValueBelowTarget(t, k);
        } else {
          ValueAtStop(t);
        }
      }
    }
  }

  /** The text after `k` ticks: the floored value below the target while the
      interval runs, then the target itself. */
  lemma {:induction false} TicksState(a: Anim, k: nat)
    requires a.running && a.current == 0.0
    ensures var b := Ticks(a, k);
      && b.target == a.target && b.suffix == a.suffix
      && (b.running <==> k < StopTick(a.target))
      && (k <= StopTick(a.target) ==> b.current == Value(a.target, k))
      && (0 < k < StopTick(a.target) ==>
            b.text == NatToString(Shown(a.target, k)) + a.suffix && Shown(a.target, k) < a.target)
      && (k >= StopTick(a.target) ==> b.text == FinalText(Parsed(a.target, a.suffix)))
    decreases k
  {
    var t := a.target;
    TicksValue(a, k);
    if k > 0 {
      TicksValue(a, k - 1);
      var prev := Ticks(a, k - 1);
      if k < StopTick(t) {
        var c := prev.current + StepSize(t);
        ValueStep(t, k - 1);
        ValueBelowTarget(t, k);
        assert Ticks(a, k).text == IntToString(c.Floor) + a.suffix;
      } else if k > StopTick(t) {
        TicksState(a, k - 1);
      }
    }
  }

  /** The displayed numbers never go down from one tick to the next. */
  lemma ShownMonotone(target: nat, k1: nat, k2: nat)
    requires k1 <= k2
    ensures Shown(target, k1) <= Shown(target, k2)
  {
    assert k1 * target <= k2 * target;
  }

  /** Runs the interval of a started animation until it clears itself,
      collecting the element's text after each callback. */
  method RunInterval(a0: Anim) returns (frames: seq<string>)
    requires a0.running && a0.current == 0.0
    ensures |frames| == StopTick(a0.target)
    ensures forall k :: 1 <= k <= |frames| ==> frames[k - 1] == Ticks(a0, k).text
  {
    var a := a0;
    frames := [];
    while a.running
      invariant |frames| <= StopTick(a0.target)
      invariant a == Ticks(a0, |frames|)
      invariant forall k :: 1 <= k <= |frames| ==> frames[k - 1] == Ticks(a0, k).text
      decreases StopTick(a0.target) - |frames|
    {
      TicksState(a0, |frames|);
      a := Tick(a);
      frames := frames + [a.text];
    }
    TicksState(a0, |frames|);
  }

  /** The texts the element shows, one per interval callback, until the
      interval is cleared: floored values below the target, then the target
      with its suffix. */
  method Animate(text: string) returns (frames: seq<string>)
    ensures Parse(text).None? ==> frames == []
    ensures Parse(text).Some? ==>
      var p := Parse(text).value;
      && |frames| == StopTick(p.target)
      && frames[|frames| - 1] == FinalText(p)
      && forall k :: 1 <= k < |frames| ==>
           frames[k - 1] == NatToString(Shown(p.target, k)) + p.suffix
           && Shown(p.target, k) < p.target
  {
    var start := Start(text);
    if start.None? {
      return [];
    }
    var a0 := start.value;
    frames := RunInterval(a0);
    FramesShowCount(a0, frames);
  }

  /** What the collected texts say, tick by tick. */
  lemma FramesShowCount(a0: Anim, frames: seq<string>)
    requires a0.running && a0.current == 0.0
    requires |frames| == StopTick(a0.target)
    requires forall k :: 1 <= k <= |frames| ==> frames[k - 1] == Ticks(a0, k).text
    ensures frames[|frames| - 1] == FinalText(Parsed(a0.target, a0.suffix))
    ensures forall k :: 1 <= k < |frames| ==>
      frames[k - 1] == NatToString(Shown(a0.target, k)) + a0.suffix
      && Shown(a0.target, k) < a0.target
  {
    TicksState(a0, |frames|);
    forall k | 1 <= k < |frames|
      ensures frames[k - 1] == NatToString(Shown(a0.target, k)) + a0.suffix
      ensures Shown(a0.target, k) < a0.target
    {
      TicksState(a0, k);
    }
  }

  /** Between the first tick and the last, the shown numbers rise and stay
      below the target. */
  lemma ShownRising(target: nat, k1: nat, k2: nat)
    requires target > 0 && 0 < k1 <= k2 < TickCount
    ensures Shown(target, k1) <= Shown(target, k2) < target
  {
    ShownMonotone(target, k1, k2);
    ValueBelowTarget(target, k2);
  }

  /** `"1234+"` counts up in non-decreasing floored steps and ends on
      `"1234+"`. */
  lemma CountsUpTo1234()
    ensures Parse("1234+") == Some(Parsed(1234, "+"))
    ensures FinalText(Parsed(1234, "+")) == "1234+"
    ensures forall k1, k2 :: 0 < k1 <= k2 < TickCount ==> Shown(1234, k1) <= Shown(1234, k2) < 1234
  {
    var p := Parsed(1234, "+");
    Value1234();
    assert FinalText(p) == "1234" + "+" == "1234+";
    ParseFinalText(p);
    forall k1: nat, k2: nat | 0 < k1 <= k2 < TickCount
      ensures Shown(1234, k1) <= Shown(1234, k2) < 1234
    {
      ShownRising(1234, k1, k2);
    }
  }
}
