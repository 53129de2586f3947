/**
 * The relative-time choice of `PybbTimeNode.render` in
 * `pybb/templatetags/pybb_tags.py`: an elapsed time under a minute is shown in
 * seconds, under an hour in minutes, and anything else is formatted as an
 * absolute date. Times are whole seconds since a fixed epoch.
 */
module PybbTime {
  import opened Wrappers

  const SecondsPerDay := 86400

  /** The branch `render` takes on the elapsed time. */
  datatype Bucket = SecondsAgo(seconds: nat) | MinutesAgo(minutes: nat) | Absolute

  /** `timedelta` normalisation: `days` is the floor of the elapsed days and
      `seconds` the non-negative remainder below a day. */
  function DeltaDays(elapsed: int): int {
    elapsed / SecondsPerDay
  }

  function DeltaSeconds(elapsed: int): (s: nat)
    ensures s < SecondsPerDay
    ensures DeltaDays(elapsed) * SecondsPerDay + s == elapsed
  {
    elapsed % SecondsPerDay
  }

  /** The bucket for `delta = now - context_time`. */
  function TimeBucket(now: int, contextTime: int): (b: Bucket)
    ensures b.SecondsAgo? <==> 0 <= now - contextTime < 60
    ensures b.SecondsAgo? ==> b.seconds == now - contextTime
    ensures b.MinutesAgo? <==> 60 <= now - contextTime < 3600
    ensures b.MinutesAgo? ==> b.minutes * 60 <= now - contextTime < (b.minutes + 1) * 60 && 1 <= b.minutes < 60
    ensures b.Absolute? <==> now - contextTime < 0 || now - contextTime >= 3600
  {
    var elapsed := now - contextTime;
    var days := DeltaDays(elapsed);
    var seconds := DeltaSeconds(elapsed);
    if days == 0 && seconds < 60 then SecondsAgo(seconds)
    else if days == 0 && seconds < 3600 then MinutesAgo(seconds / 60)
    else Absolute
  }

  /** `'%d' % n` for a non-negative number: decimal digits without leading zeros. */
  function NatToString(n: nat): (s: string)
    ensures |s| > 0
    ensures forall i :: 0 <= i < |s| ==> '0' <= s[i] <= '9'
    ensures |s| > 1 ==> s[0] != '0'
    ensures s == "0" <==> n == 0
    decreases n
  {
    var digit := ['0' + (n % 10) as char];
    if n < 10 then digit else NatToString(n / 10) + digit
  }

  /** The value of a string of decimal digits. */
  function DigitsValue(s: string): int
    requires forall i :: 0 <= i < |s| ==> '0' <= s[i] <= '9'
    decreases |s|
  {
    if s == [] then 0 else DigitsValue(s[..|s| - 1]) * 10 + (s[|s| - 1] - '0') as int
  }

  /** Reading the digits back gives the number. */
  lemma {:induction false} NatToStringValue(n: nat)
    ensures DigitsValue(NatToString(n)) == n
    decreases n
  {
    var digit := ['0' + (n % 10) as char];
    if n >= 10 {
      NatToStringValue(n / 10);
      var s := NatToString(n / 10) + digit;
      assert s[..|s| - 1] == NatToString(n / 10);
    }
  }

  /** `'%d %s' % (count, msg)` for the relative buckets, with the translated
      message for seconds and for minutes as parameters; `None` means the
      absolute formatting of the date, which is not part of this model. */
  function RenderRelative(b: Bucket, secondsMsg: string, minutesMsg: string): (r: Option<string>)
    ensures b.Absolute? <==> r.None?
    ensures b.SecondsAgo? ==> r == Some(NatToString(b.seconds) + " " + secondsMsg)
    ensures b.MinutesAgo? ==> r == Some(NatToString(b.minutes) + " " + minutesMsg)
  {
    match b
    case SecondsAgo(n) => Some(NatToString(n) + " " + secondsMsg)
    case MinutesAgo(n) => Some(NatToString(n) + " " + minutesMsg)
    case Absolute => None
  }

  /** Thirty seconds, ninety seconds, an hour, and a time in the future. */
  lemma BucketExamples()
    ensures RenderRelative(TimeBucket(1030, 1000), "seconds ago", "minutes ago") == Some("30 seconds ago")
    ensures RenderRelative(TimeBucket(1090, 1000), "seconds ago", "minutes ago") == Some("1 minutes ago")
    ensures TimeBucket(4600, 1000) == Absolute
    ensures TimeBucket(999, 1000) == Absolute
  {
    assert NatToString(30) == "30" by {
      assert NatToString(3) == "3";
    }
    assert NatToString(30) + " " + "seconds ago" == "30 seconds ago";
    assert NatToString(1) == "1";
    assert NatToString(1) + " " + "minutes ago" == "1 minutes ago";
  }
}
