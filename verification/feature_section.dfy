/** The rotating feature panel of the home page (`FeatureSection`): the
    slides shown, the index of the current one, a timer that advances it,
    one dot per slide, and a load that may replace the built-in slides.
    A tick or a dot click starts a 500 ms fade; the index is written when
    the fade's timeout fires, with what the render that scheduled it saw,
    and other events may come in between. */
module FeatureSection {
  import opened OrderedTable
  import opened Carousel
  import ApiClient

  /** A slide count a tick can capture: no timer runs without slides. */
  type Length = n: nat | n > 0 witness 1

  /** A fade whose timeout has not fired: a tick's writes
      `(prev + 1) % length`, a dot's writes `idx`. */
  datatype Fade = Advance(length: Length) | Jump(idx: nat)

  /** The slides, the current index, and the running fades, oldest first. */
  datatype Panel = Panel(slides: seq<Slide>, index: nat, fades: seq<Fade>)

  /** What a render produces: nothing, the current slide, or an exception
      from reading the fields of a slide that is not there. */
  datatype Render = Nothing | Shows(slide: Slide) | Crash

  function Initial(defaults: seq<Slide>): (p: Panel)
    ensures p.slides == defaults && p.index == 0 && p.fades == []
  {
    Panel(defaults, 0, [])
  }

  /** The render: an empty list renders nothing; otherwise the slide at the
      current index is read, and a missing one throws. */
  function View(p: Panel): (r: Render)
    ensures r == Nothing <==> |p.slides| == 0
    ensures r.Shows? <==> 0 < |p.slides| && p.index < |p.slides|
    ensures r.Shows? ==> r.slide == p.slides[p.index]
  {
    if |p.slides| == 0 then Nothing
    else if p.index < |p.slides| then Shows(p.slides[p.index])
    else Crash
  }

  /** The timer runs only while there are slides. */
  predicate TimerRuns(p: Panel) {
    |p.slides| > 0
  }

  /** A timer tick (`handleNext`): a fade starts whose timeout advances the
      index over the number of slides seen now. */
  function TickStart(p: Panel): (r: Panel)
    ensures r.slides == p.slides && r.index == p.index
    ensures !TimerRuns(p) ==> r == p
    ensures TimerRuns(p) ==> r.fades == p.fades + [Advance(|p.slides|)]
  {
    if |p.slides| == 0 then p else p.(fades := p.fades + [Advance(|p.slides|)])
  }

  /** A click on dot `idx`; there is one dot per slide. The current dot does
      nothing; any other starts a fade whose timeout makes `idx` current. */
  function DotClick(p: Panel, idx: nat): (r: Panel)
    requires idx < |p.slides|
    ensures r.slides == p.slides && r.index == p.index
    ensures idx == p.index ==> r == p
    ensures idx != p.index ==> r.fades == p.fades + [Jump(idx)]
  {
    if idx != p.index then p.(fades := p.fades + [Jump(idx)]) else p
  }

  /** The running fades once fade `k` has fired. */
  function Without(fades: seq<Fade>, k: nat): (r: seq<Fade>)
    requires k < |fades|
    ensures |r| == |fades| - 1
    ensures forall i :: 0 <= i < k ==> r[i] == fades[i]
    ensures forall i :: k <= i < |r| ==> r[i] == fades[i + 1]
  {
    fades[..k] + fades[k + 1..]
  }

  /** Fade `k`'s timeout as the component has it: the write uses what the
      scheduling render saw, whatever the slides are now. The index is
      never negative, so the remainder agrees with the source's `%`. */
  function FadeEndAsWritten(p: Panel, k: nat): (r: Panel)
    requires k < |p.fades|
    ensures r.slides == p.slides && r.fades == Without(p.fades, k)
    ensures p.fades[k].Advance? ==> r.index == (p.index + 1) % p.fades[k].length
    ensures p.fades[k].Jump? ==> r.index == p.fades[k].idx
  {
    var i := match p.fades[k]
      case Advance(n) => (p.index + 1) % n
      case Jump(idx) => idx;
    Panel(p.slides, i, Without(p.fades, k))
  }

  /** A tick whose fade ends before anything else happens: the next index,
      wrapping to 0 after the last slide; nothing happens when no timer
      runs. */
  function Tick(p: Panel): (r: Panel)
    ensures r.slides == p.slides && r.fades == p.fades
    ensures !TimerRuns(p) ==> r == p
    ensures TimerRuns(p) ==> r.index < |p.slides|
    ensures TimerRuns(p) && p.index + 1 < |p.slides| ==> r.index == p.index + 1
    ensures TimerRuns(p) && p.index + 1 == |p.slides| ==> r.index == 0
  {
    if |p.slides| == 0 then p else p.(index := (p.index + 1) % |p.slides|)
  }

  /** An uninterrupted tick is a tick whose fade fires before anything
      else happens. */
  lemma TickIsFadeEnd(p: Panel)
    requires TimerRuns(p)
    ensures Tick(p) == FadeEndAsWritten(TickStart(p), |p.fades|)
  {
    var q := TickStart(p);
    assert Without(q.fades, |p.fades|) == p.fades;
  }

  /** `k` uninterrupted timer ticks in a row. */
  function Ticks(p: Panel, k: nat): Panel {
    if k == 0 then p else Tick(Ticks(p, k - 1))
  }

  /** Arithmetic for the wrap-around: `%` on naturals. */
  lemma MulAtLeast(d: int, n: int)
    requires d >= 1 && n > 0
    ensures d * n >= n
  {
    assert d * n == (d - 1) * n + n;
    assert (d - 1) * n >= 0;
  }
  lemma ModUnique(y: int, n: int, q: int, r: int)
    requires n > 0 && 0 <= r < n && y == q * n + r
    ensures y % n == r
  {
    var q' := y / n;
    var r' := y % n;
    assert y == q' * n + r';
    var d := q - q';
    assert d * n == q * n - q' * n;
    assert d * n == r' - r;
    if d >= 1 {
      MulAtLeast(d, n);
    } else if d <= -1 {
      MulAtLeast(-d, n);
    }
  }

  lemma ModStep(a: nat, n: nat)
    requires n > 0
    ensures (a % n + 1) % n == (a + 1) % n
  {
    var q := a / n;
    var m := a % n;
    assert a == q * n + m;
    if m + 1 < n {
      ModUnique(a + 1, n, q, m + 1);
      ModUnique(m + 1, n, 0, m + 1);
    } else {
      assert a + 1 == (q + 1) * n + 0;
      ModUnique(a + 1, n, q + 1, 0);
      ModUnique(n, n, 1, 0);
    }
  }

  lemma WrapOnce(i: nat, n: nat)
    requires i < n
    ensures (i + n) % n == i
  {
    ModUnique(i + n, n, 1, i);
  }

  /** After `k` ticks the index has moved `k` places round the slides. */
  lemma {:induction false} TicksAdvance(p: Panel, k: nat)
    requires TimerRuns(p) && p.index < |p.slides|
    ensures Ticks(p, k) == p.(index := (p.index + k) % |p.slides|)
  {
    if k > 0 {
      TicksAdvance(p, k - 1);
      ModStep(p.index + k - 1, |p.slides|);
    }
  }

  /** As many ticks as there are slides bring the panel back to where it
      started. */
  lemma FullCycle(p: Panel)
    requires TimerRuns(p) && p.index < |p.slides|
    ensures Ticks(p, |p.slides|) == p
  {
    var n := |p.slides|;
    assert (p.index + n) % n == p.index by { WrapOnce(p.index, n); }
    TicksAdvance(p, n);
  }

  /** `loadSlides` as the component has it: a non-empty answer replaces the
      slides, the index stays; an empty list, a `null` or an error leaves
      the panel. */
  function LoadSlidesAsWritten(p: Panel, result: ApiClient.Outcome<seq<Slide>>): (r: Panel)
    ensures r.index == p.index && r.fades == p.fades
    ensures result.Value? && |result.value| > 0 ==> r.slides == result.value
    ensures !(result.Value? && |result.value| > 0) ==> r == p
  {
    if result.Value? && |result.value| > 0 then p.(slides := result.value) else p
  }

  /** What can happen to the panel: a tick, a click on a rendered dot, a
      fade's timeout firing, the load's answer. */
  datatype Event = TickEvent | DotEvent(idx: nat) | FadeEndEvent(k: nat) | LoadEvent(result: ApiClient.Outcome<seq<Slide>>)

  /** One event as the component handles it; a dot beyond the slides is not
      rendered and only a running fade can fire. */
  function StepAsWritten(p: Panel, e: Event): (r: Panel)
    ensures e.LoadEvent? ==> r == LoadSlidesAsWritten(p, e.result)
    ensures e.FadeEndEvent? && e.k < |p.fades| ==> r == FadeEndAsWritten(p, e.k)
    ensures e.TickEvent? ==> r == TickStart(p)
  {
    match e
    case TickEvent => TickStart(p)
    case DotEvent(idx) => if idx < |p.slides| then DotClick(p, idx) else p
    case FadeEndEvent(k) => if k < |p.fades| then FadeEndAsWritten(p, k) else p
    case LoadEvent(result) => LoadSlidesAsWritten(p, result)
  }

  function RunAsWritten(p: Panel, events: seq<Event>): Panel
    decreases |events|
  {
    if |events| == 0 then p else RunAsWritten(StepAsWritten(p, events[0]), events[1..])
  }

  /** The three built-in slides, the third made current by its dot, then a
      load answering one slide: the render reads past the end. */
  lemma LoadAsWrittenCanCrash(a: Slide, b: Slide, c: Slide, d: Slide)
    ensures var p := RunAsWritten(Initial([a, b, c]), [DotEvent(2), FadeEndEvent(0)]);
      && View(p) == Shows(c)
      && View(RunAsWritten(Initial([a, b, c]), [DotEvent(2), FadeEndEvent(0), LoadEvent(ApiClient.Value([d]))])) == Crash
  {
    var p0 := Initial([a, b, c]);
    var p1 := StepAsWritten(p0, DotEvent(2));
    var p2 := StepAsWritten(p1, FadeEndEvent(0));
    assert p2.index == 2 && p2.slides == [a, b, c];
    var p3 := StepAsWritten(p2, LoadEvent(ApiClient.Value([d])));
    var load := LoadEvent(ApiClient.Value([d]));
    assert RunAsWritten(p2, []) == p2;
    assert RunAsWritten(p1, [FadeEndEvent(0)]) == p2 by {
      assert [FadeEndEvent(0)][1..] == [];
    }
    assert RunAsWritten(p0, [DotEvent(2), FadeEndEvent(0)]) == p2 by {
      assert [DotEvent(2), FadeEndEvent(0)][1..] == [FadeEndEvent(0)];
    }
    assert RunAsWritten(p3, []) == p3;
    assert RunAsWritten(p2, [load]) == p3 by {
      assert [load][1..] == [];
    }
    assert RunAsWritten(p1, [FadeEndEvent(0), load]) == p3 by {
      assert [FadeEndEvent(0), load][1..] == [load];
    }
    assert RunAsWritten(p0, [DotEvent(2), FadeEndEvent(0), load]) == p3 by {
      assert [DotEvent(2), FadeEndEvent(0), load][1..] == [FadeEndEvent(0), load];
    }
  }

  /** `loadSlides` with the index reset to the first slide when the slides
      are replaced. */
  function LoadSlides(p: Panel, result: ApiClient.Outcome<seq<Slide>>): (r: Panel)
    ensures result.Value? && |result.value| > 0 ==> r == Panel(result.value, 0, p.fades)
    ensures !(result.Value? && |result.value| > 0) ==> r == p
  {
    if result.Value? && |result.value| > 0 then Panel(result.value, 0, p.fades) else p
  }

  /** The reset alone is not enough: a tick's fade still running when one
      slide arrives writes `(0 + 1) % 3`, and the render reads past the
      end. */
  lemma ResetAloneCanCrash(a: Slide, b: Slide, c: Slide, d: Slide)
    ensures var p := LoadSlides(TickStart(Initial([a, b, c])), ApiClient.Value([d]));
      && View(p) == Shows(d)
      && View(FadeEndAsWritten(p, 0)) == Crash
  {
  }

  /** Fade `k`'s timeout checked against the slides current when it fires:
      a tick advances over those slides, and a dot whose slide is gone
      writes nothing. */
  function FadeEnd(p: Panel, k: nat): (r: Panel)
    requires k < |p.fades|
    ensures r.slides == p.slides && r.fades == Without(p.fades, k)
    ensures WellFormed(p) ==> WellFormed(r)
    ensures p.fades[k].Advance? && |p.slides| > 0 ==> r.index == (p.index + 1) % |p.slides|
    ensures p.fades[k].Jump? && p.fades[k].idx < |p.slides| ==> r.index == p.fades[k].idx
    ensures p.fades[k].Jump? && p.fades[k].idx >= |p.slides| ==> r.index == p.index
  {
    var f := p.fades[k];
    var i := if f.Advance? then (if |p.slides| > 0 then (p.index + 1) % |p.slides| else p.index)
             else if f.idx < |p.slides| then f.idx else p.index;
    Panel(p.slides, i, Without(p.fades, k))
  }

  /** While the slides are still the ones the scheduling render saw, the
      checked write is the component's write. */
  lemma FadeEndAgreesWhenCurrent(p: Panel, k: nat)
    requires k < |p.fades|
    requires p.fades[k].Advance? ==> p.fades[k].length == |p.slides|
    requires p.fades[k].Jump? ==> p.fades[k].idx < |p.slides|
    ensures FadeEnd(p, k) == FadeEndAsWritten(p, k)
  {
  }

  /** The index names a slide whenever there are slides. */
  predicate WellFormed(p: Panel) {
    |p.slides| == 0 || p.index < |p.slides|
  }

  /** A well-formed panel never crashes its render. */
  lemma WellFormedRenders(p: Panel)
    requires WellFormed(p)
    ensures View(p) != Crash
  {
  }

  /** One event with the corrected load and fade ends. */
  function Step(p: Panel, e: Event): (r: Panel)
    requires WellFormed(p)
    ensures WellFormed(r)
    ensures r.fades == StepAsWritten(p, e).fades
  {
    match e
    case TickEvent => TickStart(p)
    case DotEvent(idx) => if idx < |p.slides| then DotClick(p, idx) else p
    case FadeEndEvent(k) => if k < |p.fades| then FadeEnd(p, k) else p
    case LoadEvent(result) => LoadSlides(p, result)
  }

  function Run(p: Panel, events: seq<Event>): (r: Panel)
    requires WellFormed(p)
    decreases |events|
  {
    if |events| == 0 then p else Run(Step(p, events[0]), events[1..])
  }

  /** From the first render, any interleaving of ticks, dot clicks, fade
      timeouts and loads leaves a panel whose render never crashes. */
  lemma {:induction false} NeverCrashes(defaults: seq<Slide>, events: seq<Event>)
    ensures WellFormed(Run(Initial(defaults), events))
    ensures View(Run(Initial(defaults), events)) != Crash
  {
    RunKeepsWellFormed(Initial(defaults), events);
  }

  lemma {:induction false} RunKeepsWellFormed(p: Panel, events: seq<Event>)
    requires WellFormed(p)
    ensures WellFormed(Run(p, events))
    decreases |events|
  {
    if |events| > 0 {
      RunKeepsWellFormed(Step(p, events[0]), events[1..]);
    }
  }
}
