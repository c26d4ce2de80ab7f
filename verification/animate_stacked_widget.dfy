/** The page switching of animate_stacked_widget.cpp: a stacked widget
    that slides from one page to another. Switching during a slide to a
    new page completes the slide in progress first; a slide to a page out
    of range, or to the page already shown, does nothing. The pixels that
    move (the grabbed label, opacity and position animations) are not
    modelled, only which page is current and the finish signals.
 */
module AnimateStackedWidget {
  import opened Common

  /** `AnimateMode`: the new page fades in under a snapshot of the old one
      that slides away, or the new page slides in over the old one. */
  datatype Mode = Show | Leave

  /** The widget: how many pages it has, the current page (-1 with no
      pages), the two ends of the last slide, and whether a slide runs. */
  datatype Stack = Stack(count: nat, current: int, before: int, after: int, animating: bool)

  /** The state any sequence of switches keeps: a current page exactly
      when there are pages, and a running slide between two different
      pages, showing one of them. */
  predicate Inv(s: Stack) {
    && (s.count == 0 <==> s.current == -1)
    && -1 <= s.current < s.count
    && (s.animating ==>
          && 0 <= s.before < s.count && 0 <= s.after < s.count && s.before != s.after
          && (s.current == s.before || s.current == s.after))
  }

  /** A stack of `count` pages showing its first, before any slide. */
  function Initial(count: nat): (s: Stack)
    ensures Inv(s) && !s.animating
  {
    Stack(count, if count == 0 then -1 else 0, 0, 0, false)
  }

  /** `startStackedWidgetAnimation`: nothing while a slide runs, for a
      page out of range or for two equal pages; otherwise the slide's ends
      are recorded and it starts. A fading slide shows the new page at
      once; a sliding-in one shows it when it finishes. */
  function StartAnimation(s: Stack, from: int, to: int, mode: Mode): (r: Stack)
    ensures s.animating || !(0 <= from < s.count && 0 <= to < s.count) || from == to ==> r == s
    ensures !s.animating && 0 <= from < s.count && 0 <= to < s.count && from != to ==>
      && r.animating && r.before == from && r.after == to && r.count == s.count
      && r.current == (if mode == Show then to else s.current)
  {
    if s.animating then s
    else if from >= s.count || to >= s.count || from < 0 || to < 0 || to == from then s
    else
      var r := s.(before := from, after := to, animating := true);
      if mode == Show then r.(current := to) else r
  }

  /** `onAnimationFinished`: the slide stops on its target page and
      reports both ends. */
  function OnAnimationFinished(s: Stack): (r: (Stack, (int, int)))
    ensures !r.0.animating && r.0.current == s.after
    ensures r.0.count == s.count && r.0.before == s.before && r.0.after == s.after
    ensures r.1 == (s.before, s.after)
  {
    (s.(animating := false, current := s.after), (s.before, s.after))
  }

  /** `switchToIndex`: the new state and the finish signals it sends. While
      a slide runs, the same target changes nothing, and a new target
      completes the running slide (one signal) and starts from its end.
      Otherwise a slide starts from the current page unless it is the
      target. */
  function SwitchToIndex(s: Stack, index: int, mode: Mode): (r: (Stack, seq<(int, int)>))
    ensures s.animating && index == s.after ==> r == (s, [])
    ensures s.animating && index != s.after ==>
      r == (StartAnimation(OnAnimationFinished(s).0, s.after, index, mode), [(s.before, s.after)])
    ensures !s.animating && index == s.current ==> r == (s, [])
    ensures !s.animating && index != s.current ==> r == (StartAnimation(s, s.current, index, mode), [])
  {
    if s.animating then
      if index == s.after then (s, [])
      else
        var last := s.after;
        var (finished, signal) := OnAnimationFinished(s.(animating := false));
        (StartAnimation(finished, last, index, mode), [signal])
    else if index == s.current then (s, [])
    else (StartAnimation(s, s.current, index, mode), [])
  }

  /** Every operation keeps the invariant. */
  lemma OperationsKeepInv(s: Stack, from: int, to: int, index: int, mode: Mode)
    requires Inv(s)
    ensures Inv(OnAnimationFinished(s).0) || !s.animating
    ensures !s.animating && from == s.current ==> Inv(StartAnimation(s, from, to, mode))
    ensures Inv(SwitchToIndex(s, index, mode).0)
  {
  }

  /** Where a switch ends up once its slide, if any, finishes. */
  function Settle(s: Stack): Stack {
    if s.animating then OnAnimationFinished(s).0 else s
  }

  /** A switch to a page in range lands on it once the slide finishes,
      whatever was running before; each switch reports at most the one
      slide it cut short. */
  lemma SwitchLandsOnTarget(s: Stack, index: int, mode: Mode)
    requires Inv(s) && 0 <= index < s.count
    ensures var r := SwitchToIndex(s, index, mode);
      Settle(r.0).current == index && !Settle(r.0).animating && |r.1| <= 1
  {
  }

  /** A switch to a page out of range starts nothing new: an idle widget
      is untouched, and a running slide is only completed. */
  lemma SwitchOutOfRangeStartsNothing(s: Stack, index: int, mode: Mode)
    requires Inv(s) && !(0 <= index < s.count)
    ensures var r := SwitchToIndex(s, index, mode).0;
      !r.animating && r.current == Settle(s).current
  {
  }
}
