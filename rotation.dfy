/** The rotation controller of the RotatingText component: the index of the
    text on display, moved by `next`, `previous`, `jumpTo`, `reset` and the
    auto-advance interval, with the `onNext` notification. */
module Rotation {
  import opened JsStrings
  import opened Segmenter
  import opened Stagger

  function Min(a: int, b: int): int { if a <= b then a else b }
  function Max(a: int, b: int): int { if a >= b then a else b }

  /** The index `next` computes from index `i` of `n` texts. */
  function NextIndex(i: nat, n: nat, loop: bool): (r: nat)
    requires i < n
    ensures r < n
    ensures loop ==> r == (i + 1) % n
    ensures !loop ==> r == Min(i + 1, n - 1)
  {
    if i == n - 1 then (if loop then 0 else i) else i + 1
  }

  /** The index `previous` computes from index `i` of `n` texts. */
  function PreviousIndex(i: nat, n: nat, loop: bool): (r: nat)
    requires i < n
    ensures r < n
    ensures loop ==> r == (i + n - 1) % n
    ensures !loop ==> r == Max(i - 1, 0)
  {
    if i == 0 then (if loop then n - 1 else i) else i - 1
  }

  /** The index `jumpTo(k)` targets: `Math.max(0, Math.min(k, n - 1))`. */
  function ClampIndex(k: int, n: nat): (r: nat)
    requires n >= 1
    ensures r < n
    ensures 0 <= k < n ==> r == k
    ensures k < 0 ==> r == 0
    ensures k >= n ==> r == n - 1
  {
    Max(0, Min(k, n - 1))
  }

  /** The index after `k` successive calls of `next`. */
  function AfterNexts(i: nat, n: nat, loop: bool, k: nat): (r: nat)
    requires i < n
    ensures r < n
  {
    if k == 0 then i else NextIndex(AfterNexts(i, n, loop, k - 1), n, loop)
  }

  /** k calls of `next` followed by j more are k + j calls. */
  lemma {:induction false} AfterNextsCompose(i: nat, n: nat, loop: bool, k: nat, j: nat)
    requires i < n
    ensures AfterNexts(AfterNexts(i, n, loop, k), n, loop, j) == AfterNexts(i, n, loop, k + j)
  {
    if j > 0 {
      AfterNextsCompose(i, n, loop, k, j - 1);
    }
  }

  /** Below the last index, each call of `next` moves up by one. */
  lemma {:induction false} AfterNextsClimb(i: nat, n: nat, loop: bool, k: nat)
    requires i + k < n
    ensures AfterNexts(i, n, loop, k) == i + k
  {
    if k > 0 {
      AfterNextsClimb(i, n, loop, k - 1);
    }
  }

  /** With looping on, n calls of `next` bring the index back to where it
      started, whatever the start. */
  lemma NextNTimesReturns(i: nat, n: nat)
    requires i < n
    ensures AfterNexts(i, n, true, n) == i
  {
    AfterNextsClimb(i, n, true, n - i - 1);
    assert AfterNexts(i, n, true, n - i) == 0;
    AfterNextsClimb(0, n, true, i);
    AfterNextsCompose(i, n, true, n - i, i);
  }

  /** With looping off, calls of `next` climb to the last index and stay. */
  lemma {:induction false} AfterNextsNoLoop(i: nat, n: nat, k: nat)
    requires i < n
    ensures AfterNexts(i, n, false, k) == Min(i + k, n - 1)
  {
    if k > 0 {
      AfterNextsNoLoop(i, n, k - 1);
    }
  }

  /** `previous` undoes `next` and `next` undoes `previous` when looping; without
      looping `previous` undoes every `next` that moved. */
  lemma PreviousUndoesNext(i: nat, n: nat, loop: bool)
    requires i < n
    ensures loop ==> PreviousIndex(NextIndex(i, n, loop), n, loop) == i
    ensures loop ==> NextIndex(PreviousIndex(i, n, loop), n, loop) == i
    ensures !loop && i < n - 1 ==> PreviousIndex(NextIndex(i, n, loop), n, loop) == i
    ensures !loop && 0 < i ==> NextIndex(PreviousIndex(i, n, loop), n, loop) == i
  {
  }

  /** When `next` and `previous` move, and so call `onNext`: only with at
      least two texts, and without looping only away from the boundary. */
  lemma MovesExactly(i: nat, n: nat, loop: bool)
    requires i < n
    ensures NextIndex(i, n, loop) != i <==> n >= 2 && (loop || i < n - 1)
    ensures PreviousIndex(i, n, loop) != i <==> n >= 2 && (loop || 0 < i)
  {
  }

  /** `jumpTo(k)` lands where `jumpTo` of the clamped target would. */
  lemma ClampIdempotent(k: int, n: nat)
    requires n >= 1
    ensures ClampIndex(ClampIndex(k, n), n) == ClampIndex(k, n)
  {
  }

  /** One mounted RotatingText. The handlers are closures over the index of
      the last render: `setCurrentTextIndex` only records the index React
      renders next, so handlers called again before that render still read
      the rendered index. */
  class RotatingText {
    const texts: seq<string>
    const loop: bool
    const auto: bool
    const splitBy: string
    const host: Host
    const staggerFrom: StaggerFrom
    const staggerDuration: real
    /** Whether the caller passed an `onNext` callback. */
    const hasOnNext: bool

    /** The index of the last render, which every handler reads. */
    var currentTextIndex: nat
    /** The index the next render shows: the last one passed to
        `setCurrentTextIndex` since the last render, or the rendered one. */
    var pendingIndex: nat
    /** The arguments `onNext` has received so far, in order. */
    var notified: seq<nat>

    ghost predicate Valid()
      reads this
    {
      |texts| >= 1 && currentTextIndex < |texts| && pendingIndex < |texts|
    }

    /** Whether no index change waits for a render. */
    predicate Settled()
      reads this
    {
      pendingIndex == currentTextIndex
    }

    /** What a handler whose target is `to` reports to `onNext`, given the
        rendered index `from`. */
    function Notice(from: nat, to: nat): seq<nat>
    {
      if from != to && hasOnNext then [to] else []
    }

    constructor (texts: seq<string>, loop: bool, auto: bool, splitBy: string, host: Host,
                 staggerFrom: StaggerFrom, staggerDuration: real, hasOnNext: bool)
      requires |texts| >= 1
      ensures Valid() && Settled()
      ensures this.texts == texts && this.loop == loop && this.auto == auto && this.splitBy == splitBy
      ensures this.host == host && this.staggerFrom == staggerFrom && this.staggerDuration == staggerDuration
      ensures this.hasOnNext == hasOnNext
      ensures currentTextIndex == 0 && notified == []
    {
      this.texts := texts;
      this.loop := loop;
      this.auto := auto;
      this.splitBy := splitBy;
      this.host := host;
      this.staggerFrom := staggerFrom;
      this.staggerDuration := staggerDuration;
      this.hasOnNext := hasOnNext;
      currentTextIndex := 0;
      pendingIndex := 0;
      notified := [];
    }

    /** `handleIndexChange`: schedule the index for the next render, then
        notify. */
    method HandleIndexChange(newIndex: nat)
      requires Valid() && newIndex < |texts|
      modifies this
      ensures Valid() && pendingIndex == newIndex && currentTextIndex == old(currentTextIndex)
      ensures notified == old(notified) + (if hasOnNext then [newIndex] else [])
    {
      pendingIndex := newIndex;
      if hasOnNext {
        notified := notified + [newIndex];
      }
    }

    /** `next`: computed from the rendered index. */
    method Next()
      requires Valid()
      modifies this
      ensures Valid() && currentTextIndex == old(currentTextIndex)
      ensures var target := NextIndex(old(currentTextIndex), |texts|, loop);
        && pendingIndex == (if target != old(currentTextIndex) then target else old(pendingIndex))
        && notified == old(notified) + Notice(old(currentTextIndex), target)
    {
      var nextIndex := if currentTextIndex == |texts| - 1 then (if loop then 0 else currentTextIndex)
                       else currentTextIndex + 1;
      if nextIndex != currentTextIndex {
        HandleIndexChange(nextIndex);
      }
    }

    /** `previous`: computed from the rendered index. */
    method Previous()
      requires Valid()
      modifies this
      ensures Valid() && currentTextIndex == old(currentTextIndex)
      ensures var target := PreviousIndex(old(currentTextIndex), |texts|, loop);
        && pendingIndex == (if target != old(currentTextIndex) then target else old(pendingIndex))
        && notified == old(notified) + Notice(old(currentTextIndex), target)
    {
      var prevIndex := if currentTextIndex == 0 then (if loop then |texts| - 1 else currentTextIndex)
                       else currentTextIndex - 1;
      if prevIndex != currentTextIndex {
        HandleIndexChange(prevIndex);
      }
    }

    /** `jumpTo(index)`: compared with the rendered index. */
    method JumpTo(index: int)
      requires Valid()
      modifies this
      ensures Valid() && currentTextIndex == old(currentTextIndex)
      ensures var target := ClampIndex(index, |texts|);
        && pendingIndex == (if target != old(currentTextIndex) then target else old(pendingIndex))
        && notified == old(notified) + Notice(old(currentTextIndex), target)
    {
      var validIndex := Max(0, Min(index, |texts| - 1));
      if validIndex != currentTextIndex {
        HandleIndexChange(validIndex);
      }
    }

    /** `reset`: compared with the rendered index. */
    method Reset()
      requires Valid()
      modifies this
      ensures Valid() && currentTextIndex == old(currentTextIndex)
      ensures pendingIndex == (if old(currentTextIndex) != 0 then 0 else old(pendingIndex))
      ensures notified == old(notified) + Notice(old(currentTextIndex), 0)
    {
      if currentTextIndex != 0 {
        HandleIndexChange(0);
      }
    }

    /** React renders the scheduled index. */
    method Render()
      requires Valid()
      modifies this
      ensures Valid() && Settled() && currentTextIndex == old(pendingIndex)
      ensures notified == old(notified)
    {
      currentTextIndex := pendingIndex;
    }

    /** One firing of the auto-advance interval, installed only when `auto`
        and re-installed with a fresh `next` after every render, followed by
        the render it causes. */
    method Tick()
      requires Valid() && Settled() && auto
      modifies this
      ensures Valid() && Settled() && currentTextIndex == NextIndex(old(currentTextIndex), |texts|, loop)
      ensures notified == old(notified) + Notice(old(currentTextIndex), currentTextIndex)
    {
      Next();
      Render();
    }

    /** The display units of the text on display. */
    function CurrentElements(): seq<Unit>
      reads this
      requires Valid()
    {
      Elements(texts[currentTextIndex], splitBy, host)
    }

    /** The text the animated units show, space spans included. */
    function ShownText(): string
      reads this
      requires Valid()
    {
      RenderedText(CurrentElements())
    }

    /** The animated text is the text given to assistive technology with
        every separator shown as a space: the same text in characters and
        words mode, and the pieces joined with spaces in lines and
        custom-delimiter mode. */
    lemma AnimatedMatchesAccessible()
      requires Valid() && Lossless(host)
      ensures ShownText() == Join(Split(texts[currentTextIndex], Separator(splitBy)), " ")
      ensures splitBy == "characters" || splitBy == "words" ==> ShownText() == texts[currentTextIndex]
    {
      RenderedElements(texts[currentTextIndex], splitBy, host);
    }

    /** The entry delays of the characters on display; `draw` gives the random
        draw made for each character index. */
    function CurrentDelays(draw: nat -> int): seq<seq<real>>
      reads this
      requires Valid()
    {
      Delays(CurrentElements(), staggerFrom, staggerDuration, draw)
    }

    /** With "first" and a positive duration, the characters on display enter
        one after another in rendering order. */
    lemma CurrentEntersInOrder(draw: nat -> int, k1: nat, c1: nat, k2: nat, c2: nat)
      requires Valid() && staggerFrom == First && 0.0 < staggerDuration
      requires IsCharacter(CurrentElements(), k1, c1) && IsCharacter(CurrentElements(), k2, c2)
      requires k1 < k2 || (k1 == k2 && c1 < c2)
      ensures CurrentDelays(draw)[k1][c1] < CurrentDelays(draw)[k2][c2]
    {
      FirstEntersInOrder(CurrentElements(), staggerDuration, draw, k1, c1, k2, c2);
    }

    /** With a non-negative duration, an explicit origin on a character and
        every random draw in range, each delay of the text on display lies
        between 0 and (total - 1) durations. */
    lemma CurrentDelaysBounded(draw: nat -> int, k: nat, c: nat)
      requires Valid() && 0.0 <= staggerDuration && IsCharacter(CurrentElements(), k, c)
      requires staggerFrom.Index? ==> 0 <= staggerFrom.n < SumChars(CurrentElements())
      requires forall g :: 0 <= g < SumChars(CurrentElements()) ==> 0 <= draw(g) < SumChars(CurrentElements())
      ensures 0.0 <= CurrentDelays(draw)[k][c] <= Ceiling(SumChars(CurrentElements()), staggerDuration)
    {
      DelaysBounded(CurrentElements(), staggerFrom, staggerDuration, draw, k, c);
    }
  }
}
