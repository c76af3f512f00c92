/**
 * The countdown label of the feedback dialog: the text and colour shown for a
 * number of seconds left, and a reader that recovers the number from the text.
 *
 * Python's `//` and `%` floor; with the positive divisor 60 they agree with
 * Dafny's Euclidean `/` and `%` for every integer.
 */
module Countdown {
  import opened Base
  import opened PyText

  const CountdownPrefix: string := "⏰ 剩余时间："
  const TimedOutText: string := "⏰ 已超时，自动提交反馈"
  const Red: string := "#e74c3c"
  const Dark: string := "#2c3e50"

  datatype Label = Label(text: string, color: string)

  /** The label shown once the countdown has expired and the dialog auto-submits. */
  const TimedOutLabel: Label := Label(TimedOutText, Red)

  /** `f"⏰ 剩余时间：{t // 60}分{t % 60:02d}秒"`. */
  function MinutesSecondsText(t: int): string
  {
    CountdownPrefix + IntDecimal(t / 60) + "分" + ZeroPad2((t % 60) as nat) + "秒"
  }

  /** `f"⏰ 剩余时间：{n}秒"`. */
  function SecondsText(n: int): string
  {
    CountdownPrefix + IntDecimal(n) + "秒"
  }

  /** The label as the dialog is built, before the first tick. */
  function InitialLabel(timeoutSeconds: int): Label
  {
    Label(MinutesSecondsText(timeoutSeconds), Dark)
  }

  /**
   * The label a tick shows for `s` seconds left, exactly as written: in the last
   * minute it prints `s % 60`, which is 0 when `s` is 60.
   */
  function CountdownLabelAsWritten(s: int): Label
  {
    if s <= 60 then Label(SecondsText(s % 60), Red) else Label(MinutesSecondsText(s), Dark)
  }

  /** The label a tick shows for `s` seconds left, with the last minute printing `s` itself. */
  function CountdownLabel(s: int): (l: Label)
    ensures l.color == Red <==> s <= 60
  {
    if s <= 60 then Label(SecondsText(s), Red) else Label(MinutesSecondsText(s), Dark)
  }

  // ---------------------------------------------------------------------------
  // Reading a label back

  /** A number written as `{n}` writes it: digits with no leading zero. */
  function ReadNat(s: string): Option<nat>
  {
    if s != [] && AllDigits(s) && (|s| == 1 || s[0] != '0') then Some(DigitsValue(s)) else None
  }

  /** A field written as `{n:02d}` writes a number below 100: exactly two digits. */
  function ReadTwoDigits(s: string): Option<nat>
  {
    if |s| == 2 && AllDigits(s) then Some(DigitsValue(s)) else None
  }

  function FindChar(s: string, c: char): (r: Option<nat>)
    ensures r.Some? ==> r.value < |s| && s[r.value] == c
  {
    if s == [] then None
    else if s[0] == c then Some(0)
    else match FindChar(s[1..], c)
      case None => None
      case Some(k) => Some(k + 1)
  }

  /** What a countdown text shows: seconds only, or minutes and a seconds field. */
  datatype Shown = Seconds(n: nat) | MinutesSeconds(minutes: nat, seconds: nat)
  {
    /** The number of seconds left that the text stands for. */
    function Total(): nat
    {
      match this
      case Seconds(n) => n
      case MinutesSeconds(m, sec) => m * 60 + sec
    }
  }

  /**
   * Reads a countdown text the way a user reads the label: the prefix, then either
   * a number and `秒`, or a number, `分`, exactly two digits and `秒`. A number has
   * no leading zero, as `{n}` prints it.
   */
  function ReadLabel(text: string): Option<Shown>
  {
    if |text| > |CountdownPrefix| && text[..|CountdownPrefix|] == CountdownPrefix && text[|text| - 1] == '秒' then
      var body := text[|CountdownPrefix|..|text| - 1];
      match FindChar(body, '分')
      case None =>
        if ReadNat(body).Some? then Some(Seconds(ReadNat(body).value)) else None
      case Some(k) =>
        var sec := body[k + 1..];
        if ReadNat(body[..k]).Some? && ReadTwoDigits(sec).Some? then
          Some(MinutesSeconds(ReadNat(body[..k]).value, ReadTwoDigits(sec).value))
        else None
    else None
  }

  /** The number of seconds a countdown text stands for. */
  function ReadCountdown(text: string): Option<nat>
  {
    if ReadLabel(text).Some? then Some(ReadLabel(text).value.Total()) else None
  }

  lemma {:induction false} FindCharAfterDigits(a: string, c: char, rest: string)
    requires AllDigits(a) && !IsDigit(c)
    ensures FindChar(a + [c] + rest, c) == Some(|a|)
    decreases |a|
  {
    if a != [] {
      assert (a + [c] + rest)[1..] == a[1..] + [c] + rest;
      FindCharAfterDigits(a[1..], c, rest);
    }
  }

  lemma {:induction false} FindCharInDigits(a: string, c: char)
    requires AllDigits(a) && !IsDigit(c)
    ensures FindChar(a, c) == None
    decreases |a|
  {
    if a != [] {
      FindCharInDigits(a[1..], c);
    }
  }

  /** Splits a countdown text into the part between the prefix and the closing `秒`. */
  lemma CountdownBody(body: string)
    ensures var text := CountdownPrefix + body + "秒";
      |text| > |CountdownPrefix| && text[..|CountdownPrefix|] == CountdownPrefix &&
      text[|text| - 1] == '秒' && text[|CountdownPrefix|..|text| - 1] == body
  {
  }

  /** The digit reader accepts whatever `str()` writes for a count and gives that count back. */
  lemma ReadNatOfDecimal(n: nat)
    ensures ReadNat(NatDecimal(n)) == Some(n)
  {
    NatDecimalRoundTrip(n);
  }

  /** A seconds-only text reads back as its number. */
  lemma SecondsTextReadsBack(n: nat)
    ensures ReadLabel(SecondsText(n)) == Some(Seconds(n))
  {
    var d := NatDecimal(n);
    CountdownBody(d);
    FindCharInDigits(d, '分');
    ReadNatOfDecimal(n);
  }

  /** A minutes-and-seconds text reads back as `t // 60` minutes and `t % 60` seconds. */
  lemma MinutesSecondsTextReadsBack(t: nat)
    ensures ReadLabel(MinutesSecondsText(t)) == Some(MinutesSeconds(t / 60, t % 60))
  {
    var m := NatDecimal(t / 60);
    var p := ZeroPad2(t % 60);
    var body := m + "分" + p;
    assert MinutesSecondsText(t) == CountdownPrefix + body + "秒";
    CountdownBody(body);
    FindCharAfterDigits(m, '分', p);
    assert body[..|m|] == m && body[|m| + 1..] == p;
    ReadNatOfDecimal(t / 60);
    ZeroPad2Value(t % 60);
    assert ReadTwoDigits(p) == Some(t % 60);
  }

  /** Before the first tick, the label shows the whole configured timeout in minutes and seconds. */
  lemma InitialLabelReadsBack(timeoutSeconds: nat)
    ensures ReadLabel(InitialLabel(timeoutSeconds).text) == Some(MinutesSeconds(timeoutSeconds / 60, timeoutSeconds % 60))
    ensures ReadCountdown(InitialLabel(timeoutSeconds).text) == Some(timeoutSeconds)
    ensures InitialLabel(timeoutSeconds).color == Dark
  {
    MinutesSecondsTextReadsBack(timeoutSeconds);
    assert MinutesSeconds(timeoutSeconds / 60, timeoutSeconds % 60).Total() == timeoutSeconds;
  }

  /**
   * The label shows the seconds left: red with seconds only in the last minute,
   * `s // 60` minutes and a two-digit `s % 60` seconds field above it.
   */
  lemma CountdownLabelReadsBack(s: int)
    requires s > 0
    ensures s <= 60 ==> ReadLabel(CountdownLabel(s).text) == Some(Seconds(s))
    ensures s > 60 ==> ReadLabel(CountdownLabel(s).text) == Some(MinutesSeconds(s / 60, s % 60))
    ensures ReadCountdown(CountdownLabel(s).text) == Some(s)
  {
    if s <= 60 {
      SecondsTextReadsBack(s);
    } else {
      MinutesSecondsTextReadsBack(s);
      assert MinutesSeconds(s / 60, s % 60).Total() == s;
    }
  }

  /** As written, the tick at exactly 60 seconds left shows "0秒". */
  lemma AsWrittenShowsZeroAtSixty()
    ensures CountdownLabelAsWritten(60) == Label(CountdownPrefix + "0秒", Red)
    ensures ReadLabel(CountdownLabelAsWritten(60).text) == Some(Seconds(0))
    ensures ReadCountdown(CountdownLabelAsWritten(60).text) == Some(0)
  {
    SecondsTextReadsBack(0);
  }

  /** Sixty is the only count where the label as written differs from the seconds left. */
  lemma AsWrittenAgreesOffSixty(s: int)
    requires s > 0 && s != 60
    ensures CountdownLabelAsWritten(s) == CountdownLabel(s)
  {
  }
}
