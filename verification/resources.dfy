/**
 * The computed fields of the JSON resources: a service's human-readable
 * duration, a doctor's experience level and appointment count, and a blog's
 * reading time, tag list and publication stamp.
 *
 * Two PHP details decide the texts. `floor()` and `ceil()` return floats, and
 * `$x !== 1` compares type as well as value, so a float is never identical to
 * the integer 1 and the plural "s" is always appended after a rounded number.
 * An integral float is rendered by string concatenation without a fraction
 * ("2", not "2.0").
 */
module Resources {
  import opened Common
  import opened Text

  /** The PHP numbers that occur here: integers and integral floats. */
  datatype PhpNumber = PhpInt(i: int) | PhpFloat(whole: int)

  /** `$a !== $b`: different type or different value. */
  predicate NotIdentical(a: PhpNumber, b: PhpNumber) {
    a != b
  }

  /** String conversion of a non-negative number in `$n . ' ...'`. */
  function Show(n: PhpNumber): string
    requires n.PhpInt? ==> n.i >= 0
    requires n.PhpFloat? ==> n.whole >= 0
  {
    match n
    case PhpInt(i) => NatToString(i)
    case PhpFloat(w) => NatToString(w)
  }

  /** The plural suffix as the source computes it: "s" unless identical to integer 1. */
  function PluralS(n: PhpNumber): string {
    if NotIdentical(n, PhpInt(1)) then "s" else ""
  }

  lemma FloatIsNeverOne(w: int)
    ensures PluralS(PhpFloat(w)) == "s"
  {
  }

  // ---------------------------------------------------------------------
  // ServiceResource::formatDuration

  function FormatDuration(minutes: nat): string {
    if minutes < 60 then
      NatToString(minutes) + " min" + PluralS(PhpInt(minutes))
    else
      var hours := PhpFloat(minutes / 60);     // floor() yields a float
      var remaining := minutes % 60;           // % yields an int
      var formatted := Show(hours) + " hour" + PluralS(hours);
      if remaining > 0 then
        formatted + " " + NatToString(remaining) + " min" + PluralS(PhpInt(remaining))
      else
        formatted
  }

  /** Below an hour: "<m> min", with "s" unless m is 1. */
  lemma FormatDurationShort(m: nat)
    requires m < 60
    ensures FormatDuration(m) == NatToString(m) + (if m == 1 then " min" else " mins")
  {
  }

  /**
   * From an hour on: whole hours, always with the word "hours", then the
   * remaining minutes only when there are some; hours and remainder add up
   * to the input.
   */
  lemma FormatDurationLong(m: nat)
    requires m >= 60
    ensures var h, rest := m / 60, m % 60;
      && h >= 1 && rest < 60 && h * 60 + rest == m
      && FormatDuration(m) == NatToString(h) + " hours"
           + (if rest == 0 then "" else " " + NatToString(rest) + (if rest == 1 then " min" else " mins"))
  {
  }

  /** The texts below an hour, including the one singular. */
  lemma FormatDurationShortExamples()
    ensures FormatDuration(1) == "1 min"
    ensures FormatDuration(45) == "45 mins"
  {
    FormatDurationShort(1);
    FormatDurationShort(45);
    assert NatToString(45) == NatToString(4) + [DigitChar(5)];
  }

  /** Whole hours: "hours" even for one hour. */
  lemma FormatDurationHoursExamples()
    ensures FormatDuration(60) == "1 hours"
    ensures FormatDuration(120) == "2 hours"
  {
    FormatDurationLong(60);
    FormatDurationLong(120);
    assert NatToString(1) == "1" && NatToString(2) == "2";
  }

  /** Hours and a remainder. */
  lemma FormatDurationMixedExamples()
    ensures FormatDuration(61) == "1 hours 1 min"
    ensures FormatDuration(90) == "1 hours 30 mins"
  {
    FormatDurationLong(61);
    FormatDurationLong(90);
    assert NatToString(1) == "1";
    assert NatToString(30) == NatToString(3) + [DigitChar(0)] == "30";
  }

  /** "min" or "mins" and nothing else. */
  predicate IsMinuteWord(t: string) {
    t == " min" || t == " mins"
  }

  /** Reads a duration text back into minutes. */
  function ReadDuration(s: string): Option<nat> {
    var p := ReadNat(s);
    if p.None? then None else ReadUnits(p.value.0, p.value.1)
  }

  /** What follows the first number: a minute word, or "hours" and a remainder. */
  function ReadUnits(n: nat, t: string): Option<nat> {
    if IsMinuteWord(t) then Some(n)
    else if |t| >= 6 && t[..6] == " hours" then ReadRemainder(n * 60, t[6..])
    else None
  }

  /** Nothing, or " <k> min(s)" added to the whole hours. */
  function ReadRemainder(base: nat, u: string): Option<nat> {
    if u == [] then Some(base)
    else if u[0] != ' ' then None
    else
      var p := ReadNat(u[1..]);
      if p.None? || !IsMinuteWord(p.value.1) then None else Some(base + p.value.0)
  }

  lemma ReadRemainderOf(base: nat, k: nat, v: string)
    requires IsMinuteWord(v)
    ensures ReadRemainder(base, " " + NatToString(k) + v) == Some(base + k)
  {
    var u := " " + NatToString(k) + v;
    assert u[1..] == NatToString(k) + v;
    ReadNatOfRendering(k, v);
  }

  lemma ReadHoursText(h: nat, tail: string)
    ensures ReadDuration(NatToString(h) + " hours" + tail) == ReadRemainder(h * 60, tail)
  {
    var t := " hours" + tail;
    assert NatToString(h) + " hours" + tail == NatToString(h) + t;
    ReadNatOfRendering(h, t);
    assert t[..6] == " hours" && t[6..] == tail;
  }

  lemma ReadsBackShort(m: nat)
    requires m < 60
    ensures ReadDuration(FormatDuration(m)) == Some(m)
  {
    var t := if m == 1 then " min" else " mins";
    FormatDurationShort(m);
    ReadNatOfRendering(m, t);
  }

  lemma ReadsBackLong(m: nat)
    requires m >= 60
    ensures ReadDuration(FormatDuration(m)) == Some(m)
  {
    var h, rest := m / 60, m % 60;
    FormatDurationLong(m);
    var v := if rest == 1 then " min" else " mins";
    var tail := if rest == 0 then "" else " " + NatToString(rest) + v;
    assert FormatDuration(m) == NatToString(h) + " hours" + tail;
    ReadHoursText(h, tail);
    if rest != 0 {
      ReadRemainderOf(h * 60, rest, v);
    }
  }

  /** The duration text determines the number of minutes. */
  lemma FormatDurationReadsBack(m: nat)
    ensures ReadDuration(FormatDuration(m)) == Some(m)
  {
    if m < 60 {
      ReadsBackShort(m);
    } else {
      ReadsBackLong(m);
    }
  }

  /** Different durations never share a text. */
  lemma FormatDurationInjective(a: nat, b: nat)
    requires FormatDuration(a) == FormatDuration(b)
    ensures a == b
  {
    FormatDurationReadsBack(a);
    FormatDurationReadsBack(b);
  }

  // ---------------------------------------------------------------------
  // DoctorResource::getExperienceLevel

  /** `years` is the nullable column; `!$years` holds for null and 0. */
  function ExperienceLevel(years: Option<int>): string {
    if years.None? || years.value == 0 then "Not specified"
    else
      var y := years.value;
      if y < 2 then "Junior"
      else if y < 5 then "Mid-level"
      else if y < 10 then "Senior"
      else if y < 20 then "Expert"
      else "Master"
  }

  /** The labels for a specified experience, from lowest to highest. */
  const Levels: seq<string> := ["Junior", "Mid-level", "Senior", "Expert", "Master"]

  /** The fewest years that earn each label (the first is reached from 1 year on). */
  const LevelFloors: seq<int> := [1, 2, 5, 10, 20]

  /** Index of a label in `Levels`. */
  function LevelRank(name: string): (k: nat)
    ensures k < |Levels| ==> Levels[k] == name
  {
    if name == "Junior" then 0
    else if name == "Mid-level" then 1
    else if name == "Senior" then 2
    else if name == "Expert" then 3
    else if name == "Master" then 4
    else 5
  }

  /** No experience recorded, or zero years, gives "Not specified". */
  lemma ExperienceNotSpecified(years: Option<int>)
    ensures ExperienceLevel(years) == "Not specified" <==> years.None? || years.value == 0
  {
  }

  /**
   * For 1 year and more, the label is the highest level whose floor the years
   * reach: label k is given exactly for floor k <= years < floor k+1.
   */
  lemma ExperienceLevelByFloors(y: int, k: nat)
    requires y >= 1 && k < |Levels|
    ensures ExperienceLevel(Some(y)) == Levels[k]
        <==> LevelFloors[k] <= y && (k + 1 == |Levels| || y < LevelFloors[k + 1])
  {
  }

  /** More years never give a lower level. */
  lemma ExperienceLevelMonotone(a: int, b: int)
    requires 1 <= a <= b
    ensures LevelRank(ExperienceLevel(Some(a))) <= LevelRank(ExperienceLevel(Some(b))) < |Levels|
  {
  }

  // ---------------------------------------------------------------------
  // DoctorResource `appointments_count`

  /**
   * The field is emitted (Some) only when the relation is loaded or a count
   * was computed; a missing count is emitted as 0.
   */
  function AppointmentsCountField(relationLoaded: bool, count: Option<nat>): (r: Option<nat>)
    ensures r.Some? <==> relationLoaded || count.Some?
    ensures relationLoaded && count.None? ==> r == Some(0)
    ensures count.Some? ==> r == Some(count.value)
  {
    if relationLoaded || count.Some? then Some(count.GetOr(0)) else None
  }

  // ---------------------------------------------------------------------
  // BlogResource::estimateReadingTime, with the word count as input

  /** ceil(words / 200) for a non-negative word count. */
  function ReadingMinutes(words: nat): (n: nat)
    ensures n * 200 >= words
    ensures n == 0 || (n - 1) * 200 < words
  {
    (words + 199) / 200
  }

  function ReadingTime(words: nat): string {
    var minutes := PhpFloat(ReadingMinutes(words));   // ceil() yields a float
    if minutes.whole < 1 then "Less than 1 min"
    else Show(minutes) + " min" + PluralS(minutes) + " read"
  }

  /** No words: "Less than 1 min"; otherwise "<n> mins read", always with "s". */
  lemma ReadingTimeText(words: nat)
    ensures words == 0 ==> ReadingTime(words) == "Less than 1 min"
    ensures words > 0 ==>
      ReadingMinutes(words) >= 1 && ReadingTime(words) == NatToString(ReadingMinutes(words)) + " mins read"
  {
  }

  /** More words never give fewer minutes. */
  lemma ReadingMinutesMonotone(a: nat, b: nat)
    requires a <= b
    ensures ReadingMinutes(a) <= ReadingMinutes(b)
  {
  }

  /** The reading-time text determines the minute count. */
  lemma ReadingTimeReadsBack(words: nat)
    requires words > 0
    ensures ReadNat(ReadingTime(words)) == Some((ReadingMinutes(words), " mins read"))
  {
    ReadingTimeText(words);
    ReadNatOfRendering(ReadingMinutes(words), " mins read");
  }

  // ---------------------------------------------------------------------
  // BlogResource `tags` and `published_at`

  /** Null tags are emitted as an empty list. */
  function TagsField(tags: Option<seq<string>>): (r: seq<string>)
    ensures tags.None? ==> r == []
    ensures tags.Some? ==> r == tags.value
  {
    tags.GetOr([])
  }

  /** A null publication stamp stays null; a set one is emitted. */
  function PublishedAtField(publishedAt: Option<Instant>): (r: Option<Instant>)
    ensures r.None? <==> publishedAt.None?
    ensures publishedAt.Some? ==> r == publishedAt
  {
    publishedAt
  }
}
