/**
  The prompt card: a two-sided card that flips between the image and the prompt text, and the
  relative date shown on it. The spring animation itself and the calendar formatting of old
  dates are outside the model; the latter is a parameter.
 */
module PromptCard {
  import opened Text

  /** The rotation at which a card rests: 0 degrees showing the front, 180 showing the back. */
  function RestingAngle(isFlipped: bool): int {
    if isFlipped then 180 else 0
  }

  /** One tap: the new flipped state and the rotation the animation heads for. */
  datatype FlipStep = FlipStep(isFlipped: bool, toValue: int)

  /** A tap negates the flipped state and animates towards the new state's resting angle. */
  function Flip(isFlipped: bool): (s: FlipStep)
    ensures s.isFlipped == !isFlipped
    ensures s.toValue == RestingAngle(s.isFlipped)
    ensures s.toValue == 180 <==> !isFlipped
  {
    if isFlipped then FlipStep(false, 0) else FlipStep(true, 180)
  }

  /** Two taps bring the card back to where it was, rotation included. */
  lemma FlipTwice(isFlipped: bool)
    ensures Flip(Flip(isFlipped).isFlipped).isFlipped == isFlipped
    ensures Flip(Flip(isFlipped).isFlipped).toValue == RestingAngle(isFlipped)
  {
  }

  /** The image side is hidden while the card is flipped. */
  predicate FrontHidden(isFlipped: bool) {
    isFlipped
  }

  /** The prompt side is hidden while the card is not flipped. */
  predicate BackHidden(isFlipped: bool) {
    !isFlipped
  }

  /** The two sides of the card. */
  datatype Face = Front | Back

  /** The side a viewer sees. */
  function VisibleFace(isFlipped: bool): (f: Face)
    ensures f == Front <==> !FrontHidden(isFlipped)
    ensures f == Back <==> !BackHidden(isFlipped)
  {
    if isFlipped then Back else Front
  }

  /** Exactly one side is shown at a time, and each tap swaps it. */
  lemma ExactlyOneFace(isFlipped: bool)
    ensures FrontHidden(isFlipped) != BackHidden(isFlipped)
    ensures VisibleFace(Flip(isFlipped).isFlipped) != VisibleFace(isFlipped)
  {
  }

  /** Milliseconds in a day. */
  const MsPerDay := 1000 * 60 * 60 * 24

  /** `Math.abs` on integers. */
  function Abs(x: int): nat {
    if x < 0 then -x else x
  }

  /** Whole days between two instants in milliseconds, rounded down, regardless of order. */
  function DiffDays(date: int, now: int): (d: nat)
    ensures d * MsPerDay <= Abs(now - date) < (d + 1) * MsPerDay
  {
    Abs(now - date) / MsPerDay
  }

  /** What the card shows for a date: today, yesterday, some days ago, or a calendar date. */
  datatype DateLabel = Today | Yesterday | DaysAgo(days: nat) | Calendar(date: int)

  /** The date buckets, stated on the distance in milliseconds. */
  function Bucket(date: int, now: int): (b: DateLabel)
    ensures b == Today <==> Abs(now - date) < MsPerDay
    ensures b == Yesterday <==> MsPerDay <= Abs(now - date) < 2 * MsPerDay
    ensures b.DaysAgo? <==> 2 * MsPerDay <= Abs(now - date) < 7 * MsPerDay
    ensures b.DaysAgo? ==> 2 <= b.days <= 6 && b.days * MsPerDay <= Abs(now - date) < (b.days + 1) * MsPerDay
    ensures b.Calendar? <==> Abs(now - date) >= 7 * MsPerDay
    ensures b.Calendar? ==> b.date == date
  {
    var d := DiffDays(date, now);
    if d == 0 then Today
    else if d == 1 then Yesterday
    else if d < 7 then DaysAgo(d)
    else Calendar(date)
  }

  /** The card's date text; `calendar` stands for the Turkish-locale calendar formatting used
      for dates a week or more away. */
  function FormatDate(date: int, now: int, calendar: int -> string): (t: string)
    ensures Abs(now - date) < MsPerDay ==> t == "Bugün"
    ensures MsPerDay <= Abs(now - date) < 2 * MsPerDay ==> t == "Dün"
    ensures 2 * MsPerDay <= Abs(now - date) < 7 * MsPerDay ==>
      t == Decimal(DiffDays(date, now)) + " gün önce"
    ensures Abs(now - date) >= 7 * MsPerDay ==> t == calendar(date)
  {
    match Bucket(date, now)
    case Today => "Bugün"
    case Yesterday => "Dün"
    case DaysAgo(d) => Decimal(d) + " gün önce"
    case Calendar(c) => calendar(c)
  }

  /** Past and future are treated alike: a date some milliseconds ahead shows the same text as
      one the same distance behind, as long as it is less than a week away. */
  lemma FutureLikePast(now: int, d: int, calendar: int -> string)
    requires Abs(d) < 7 * MsPerDay
    ensures FormatDate(now + d, now, calendar) == FormatDate(now - d, now, calendar)
  {
    assert Abs(now - (now + d)) == Abs(now - (now - d));
  }

  /** The days-ago text names the number of whole days elapsed, and reads back as it. */
  lemma DaysAgoText(date: int, now: int)
    requires Bucket(date, now).DaysAgo?
    ensures |Decimal(Bucket(date, now).days)| == 1
    ensures DecimalValue(Decimal(Bucket(date, now).days)) == DiffDays(date, now)
  {
    DecimalRoundTrip(DiffDays(date, now));
  }
}
