/** The concrete prefixes a templated target resolves to at one moment. */
module Resolve {
  import opened Objects
  import opened Template
  import opened Calendar
  import opened Matching

  /** Prefixes for the current period and `lookback` earlier ones, newest first, without repeats. */
  ghost function Resolved(segments: seq<Segment>, g: Granularity, at: LocalTime, lookback: nat): seq<string>
    requires ValidTime(at)
  {
    StepBackPeriod(g, at, lookback);
    var rendered := Render(segments, StepBack(g, at, lookback));
    if lookback == 0 then [rendered]
    else
      var newer := Resolved(segments, g, at, lookback - 1);
      if rendered in newer then newer else newer + [rendered]
  }

  ghost predicate NoRepeats(s: seq<string>)
  {
    forall i, j | 0 <= i < j < |s| :: s[i] != s[j]
  }

  method ResolvePrefixes(template: DateTemplate, at: LocalTime, lookback: nat) returns (prefixes: seq<string>)
    requires ValidTime(at)
    ensures prefixes == Resolved(template.segments, template.granularity, at, lookback)
    ensures NoRepeats(prefixes) && |prefixes| > 0 && prefixes[0] == Render(template.segments, at)
  {
    hide *;
    prefixes := [];
    var step := 0;
    while step <= lookback
      invariant 0 <= step <= lookback + 1
      invariant step == 0 ==> prefixes == []
      invariant step > 0 ==> prefixes == Resolved(template.segments, template.granularity, at, step - 1)
    {
      ResolvedStep(template.segments, template.granularity, at, step);
      var moment := StepBack(template.granularity, at, step);
      var rendered := Render(template.segments, moment);
      if rendered !in prefixes {
        prefixes := prefixes + [rendered];
      }
      step := step + 1;
    }
    ResolvedShape(template.segments, template.granularity, at, lookback);
  }

  lemma ResolvedStep(segments: seq<Segment>, g: Granularity, at: LocalTime, step: nat)
    requires ValidTime(at)
    ensures ValidTime(StepBack(g, at, step))
    ensures var rendered := Render(segments, StepBack(g, at, step));
            Resolved(segments, g, at, step) ==
              if step == 0 then [rendered]
              else if rendered in Resolved(segments, g, at, step - 1) then Resolved(segments, g, at, step - 1)
              else Resolved(segments, g, at, step - 1) + [rendered]
  {
    StepBackPeriod(g, at, step);
  }

  lemma {:induction false} ResolvedShape(segments: seq<Segment>, g: Granularity, at: LocalTime, lookback: nat)
    requires ValidTime(at)
    ensures var r := Resolved(segments, g, at, lookback);
            NoRepeats(r) && 0 < |r| <= lookback + 1 && r[0] == Render(segments, at)
  {
    if lookback > 0 {
      ResolvedShape(segments, g, at, lookback - 1);
    }
  }

  /** A field no finer than the granularity renders the same throughout a period. */
  lemma FieldFollowsPeriod(field: Field, g: Granularity, t: LocalTime, u: LocalTime)
    requires ValidTime(t) && ValidTime(u) && Period(g, t) == Period(g, u)
    requires Fineness(GranularityOf(field)) <= Fineness(g)
    ensures RenderField(field, t) == RenderField(field, u)
  {
    PeriodDecides(g, t, u);
  }

  /** The recorded granularity is the finest of the fields present. */
  lemma {:induction false} FinestBounds(segments: seq<Segment>, g: Granularity)
    requires Finest(segments) == Some(g)
    ensures forall s | s in segments && s.Placeholder? :: Fineness(GranularityOf(s.field)) <= Fineness(g)
    ensures exists s | s in segments :: s.Placeholder? && GranularityOf(s.field) == g
  {
    var front, last := segments[..|segments| - 1], segments[|segments| - 1];
    assert segments == front + [last] && last in segments;
    if Finest(front).Some? {
      FinestBounds(front, Finest(front).value);
    } else {
      NoFields(front);
    }
  }

  lemma {:induction false} NoFields(segments: seq<Segment>)
    requires Finest(segments).None?
    ensures forall s | s in segments :: s.Literal?
  {
    if segments != [] {
      NoFields(segments[..|segments| - 1]);
      assert segments == segments[..|segments| - 1] + [segments[|segments| - 1]];
    }
  }

  lemma {:induction false} RenderFollowsPeriod(segments: seq<Segment>, g: Granularity, t: LocalTime, u: LocalTime)
    requires ValidTime(t) && ValidTime(u) && Period(g, t) == Period(g, u)
    requires forall s | s in segments && s.Placeholder? :: Fineness(GranularityOf(s.field)) <= Fineness(g)
    ensures Render(segments, t) == Render(segments, u)
  {
    if segments != [] {
      if segments[0].Placeholder? {
        FieldFollowsPeriod(segments[0].field, g, t, u);
      }
      RenderFollowsPeriod(segments[1..], g, t, u);
    }
  }

  /** Some local time in the last `lookback` periods before `at`'s renders to `s`. */
  ghost predicate RenderedWithin(segments: seq<Segment>, g: Granularity, at: LocalTime, lookback: nat, s: string)
  {
    exists t :: ValidTime(t) && Period(g, at) - lookback <= Period(g, t) <= Period(g, at) && Render(segments, t) == s
  }

  /**
   * The prefixes are exactly the renderings of the local times whose period is
   * the current one or one of the `lookback` before it: none missed, none extra.
   */
  lemma {:induction false} ResolvesExactly(segments: seq<Segment>, g: Granularity, at: LocalTime, lookback: nat)
    requires ValidTime(at) && Finest(segments) == Some(g)
    ensures forall s :: s in Resolved(segments, g, at, lookback) <==> RenderedWithin(segments, g, at, lookback, s)
  {
    hide Period, Render, StepBack, ValidTime, Resolved, Finest;
    StepBackPeriod(g, at, lookback);
    ResolvedStep(segments, g, at, lookback);
    if lookback > 0 {
      ResolvesExactly(segments, g, at, lookback - 1);
    }
    forall s ensures s in Resolved(segments, g, at, lookback) <==> RenderedWithin(segments, g, at, lookback, s) {
      WindowGrows(segments, g, at, lookback, s);
    }
  }

  /** The window's oldest period adds exactly its own rendering. */
  lemma WindowGrows(segments: seq<Segment>, g: Granularity, at: LocalTime, lookback: nat, s: string)
    requires ValidTime(at) && ValidTime(StepBack(g, at, lookback)) && Finest(segments) == Some(g)
    ensures RenderedWithin(segments, g, at, lookback, s) <==>
      || s == Render(segments, StepBack(g, at, lookback))
      || (lookback > 0 && RenderedWithin(segments, g, at, lookback - 1, s))
  {
    FinestBounds(segments, g);
    StepBackPeriod(g, at, lookback);
    hide Period, Render, StepBack, ValidTime, Finest;
    var oldest := StepBack(g, at, lookback);
    if RenderedWithin(segments, g, at, lookback, s) {
      var t :| ValidTime(t) && Period(g, at) - lookback <= Period(g, t) <= Period(g, at) && Render(segments, t) == s;
      if Period(g, t) == Period(g, oldest) {
        RenderFollowsPeriod(segments, g, t, oldest);
      }
    }
  }

  // ----- Padded templates that name every unit -----

  ghost predicate PaddedThroughout(segments: seq<Segment>, g: Granularity)
  {
    && (forall s | s in segments && s.Placeholder? :: PaddedField(s.field))
    && Placeholder(Year4) in segments
    && (g != Year ==> Placeholder(Month2) in segments)
    && (g == Day || g == Hour ==> Placeholder(Day2) in segments)
    && (g == Hour ==> Placeholder(Hour2) in segments)
  }

  lemma FieldWidth(field: Field, t: LocalTime)
    requires ValidTime(t) && FourDigitYear(t) && PaddedField(field)
    ensures |RenderField(field, t)| == if field == Year4 then 4 else 2
  {
    RenderedFieldCovers(field, t);
  }

  /** Fixed-width renderings that agree as a whole agree field by field. */
  lemma {:induction false} RenderSplits(segments: seq<Segment>, t: LocalTime, u: LocalTime, field: Field)
    requires ValidTime(t) && ValidTime(u) && FourDigitYear(t) && FourDigitYear(u)
    requires forall s | s in segments && s.Placeholder? :: PaddedField(s.field)
    requires Render(segments, t) == Render(segments, u) && Placeholder(field) in segments
    ensures RenderField(field, t) == RenderField(field, u)
  {
    var head := segments[0];
    var p, q := RenderSegment(head, t), RenderSegment(head, u);
    if head.Placeholder? {
      FieldWidth(head.field, t);
      FieldWidth(head.field, u);
    }
    assert Render(segments, t)[..|p|] == p && Render(segments, u)[..|q|] == q;
    if head != Placeholder(field) {
      assert Render(segments, t)[|p|..] == Render(segments[1..], t);
      assert Render(segments, u)[|q|..] == Render(segments[1..], u);
      RenderSplits(segments[1..], t, u, field);
    }
  }

  /** Equal padded fields show the same number. */
  lemma NumberDecided(field: Field, t: LocalTime, u: LocalTime)
    requires ValidTime(t) && ValidTime(u) && FourDigitYear(t) && FourDigitYear(u)
    requires PaddedField(field) && RenderField(field, t) == RenderField(field, u)
    ensures NumberOf(field, t) == NumberOf(field, u)
  {
    hide Padded, Fits;
    FitsSmall(NumberOf(field, t));
    FitsSmall(NumberOf(field, u));
    PaddedInjective(if field == Year4 then 4 else 2, NumberOf(field, t), NumberOf(field, u));
  }

  /** Different periods of such a template never share a prefix. */
  lemma {:induction false} RenderDecidesPeriod(segments: seq<Segment>, g: Granularity, t: LocalTime, u: LocalTime)
    requires ValidTime(t) && ValidTime(u) && FourDigitYear(t) && FourDigitYear(u)
    requires PaddedThroughout(segments, g) && Render(segments, t) == Render(segments, u)
    ensures Period(g, t) == Period(g, u)
  {
    hide Render, RenderField, Period;
    RenderSplits(segments, t, u, Year4);
    NumberDecided(Year4, t, u);
    if g != Year {
      RenderSplits(segments, t, u, Month2);
      NumberDecided(Month2, t, u);
    }
    if g == Day || g == Hour {
      RenderSplits(segments, t, u, Day2);
      NumberDecided(Day2, t, u);
    }
    if g == Hour {
      RenderSplits(segments, t, u, Hour2);
      NumberDecided(Hour2, t, u);
    }
    UnitsDecidePeriod(g, t, u);
  }

  ghost predicate YearsInRange(g: Granularity, at: LocalTime, lookback: nat)
  {
    forall i: nat | i <= lookback :: FourDigitYear(StepBack(g, at, i))
  }

  /** One prefix per period, the i-th belonging to the i-th period back. */
  lemma {:induction false} OnePrefixPerPeriod(segments: seq<Segment>, g: Granularity, at: LocalTime, lookback: nat)
    requires ValidTime(at) && PaddedThroughout(segments, g) && YearsInRange(g, at, lookback)
    ensures var r := Resolved(segments, g, at, lookback);
            |r| == lookback + 1
            && forall i: nat | i <= lookback ::
              ValidTime(StepBack(g, at, i)) && Period(g, StepBack(g, at, i)) == Period(g, at) - i
              && r[i] == Render(segments, StepBack(g, at, i))
  {
    hide *;
    StepBackPeriod(g, at, lookback);
    ResolvedStep(segments, g, at, lookback);
    if lookback > 0 {
      YearsFollow(g, at, lookback);
      OnePrefixPerPeriod(segments, g, at, lookback - 1);
      var newer, oldest := Resolved(segments, g, at, lookback - 1), StepBack(g, at, lookback);
      forall i: nat | i < lookback ensures newer[i] != Render(segments, oldest) {
        if newer[i] == Render(segments, oldest) {
          RenderDecidesPeriod(segments, g, StepBack(g, at, i), oldest);
        }
      }
    }
  }

  lemma YearsFollow(g: Granularity, at: LocalTime, lookback: nat)
    requires YearsInRange(g, at, lookback)
    ensures forall i: nat | i <= lookback :: FourDigitYear(StepBack(g, at, i))
    ensures lookback > 0 ==> YearsInRange(g, at, lookback - 1)
  {
  }

  // ----- Downloads against the watcher's target -----

  /** Whether a download key belongs to the target: structurally, not temporally. */
  predicate KeyWithinTarget(prefix: string, template: Option<DateTemplate>, key: string)
  {
    if template.Some? then MatchesSegments(template.value.segments, key) else prefix == "" || prefix <= key
  }

  /** Without a template a key belongs to the target exactly when a listing under its prefix would show it. */
  lemma PlainTargetIsPrefix(prefix: string, key: string)
    ensures KeyWithinTarget(prefix, None, key) <==> prefix <= key
  {
  }

  lemma {:induction false} ResolvedOrigin(segments: seq<Segment>, g: Granularity, at: LocalTime, lookback: nat,
    s: string)
    requires ValidTime(at) && s in Resolved(segments, g, at, lookback)
    ensures exists i: nat | i <= lookback ::
      ValidTime(StepBack(g, at, i)) && s == Render(segments, StepBack(g, at, i))
  {
    ResolvedStep(segments, g, at, lookback);
    if lookback > 0 && s in Resolved(segments, g, at, lookback - 1) {
      ResolvedOrigin(segments, g, at, lookback - 1, s);
    }
  }

  /** No object a poll lists can be refused for download, now or after its period has passed. */
  lemma ListedKeysAreWithinTarget(prefix: string, template: DateTemplate, at: LocalTime, lookback: nat, key: string)
    requires ValidTime(at)
    requires Placeholder(Year4) in template.segments ==> YearsInRange(template.granularity, at, lookback)
    requires exists s :: s in Resolved(template.segments, template.granularity, at, lookback) && s <= key
    ensures KeyWithinTarget(prefix, Some(template), key)
  {
    hide *;
    var segments, g := template.segments, template.granularity;
    var s :| s in Resolved(segments, g, at, lookback) && s <= key;
    ResolvedOrigin(segments, g, at, lookback, s);
    var i: nat :| i <= lookback && ValidTime(StepBack(g, at, i)) && s == Render(segments, StepBack(g, at, i));
    if Placeholder(Year4) in segments {
      YearsFollow(g, at, lookback);
    }
    RenderingMatches(segments, StepBack(g, at, i), key[|s|..]);
    assert key == s + key[|s|..];
    WithinTemplate(prefix, template, key);
  }

  lemma WithinTemplate(prefix: string, template: DateTemplate, key: string)
    ensures KeyWithinTarget(prefix, Some(template), key) <==> MatchesSegments(template.segments, key)
  {
  }
}
