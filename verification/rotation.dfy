/**
 The project showcase around the title animation: which project is current,
 how the "Previous"/"Next" buttons and the stack of title cards move it, and
 the transition that dissolves the old title and scrambles in the new one.
 */
module Rotation {
  import opened Timing
  import opened Permutation
  import opened Scramble

  /** `prev < projects.length - 1 ? prev + 1 : 0`. */
  function NextIndex(i: int, len: int): (r: int)
    ensures 0 <= i < len ==> 0 <= r < len
    ensures 0 <= i < len ==> r == (i + 1) % len
    ensures 0 <= i < len ==> (r == 0 <==> i == len - 1)
  {
    if i < len - 1 then i + 1 else 0
  }

  /** `prev > 0 ? prev - 1 : projects.length - 1`. */
  function PrevIndex(i: int, len: int): (r: int)
    ensures 0 <= i < len ==> 0 <= r < len
    ensures 0 <= i < len ==> r == (i - 1) % len
    ensures 0 <= i < len ==> (r == len - 1 <==> i == 0)
    ensures 0 <= i < len ==> NextIndex(r, len) == i
  {
    if i > 0 then i - 1 else len - 1
  }

  /** "Previous" after "Next" comes back to the same project. */
  lemma PrevAfterNext(i: int, len: int)
    requires 0 <= i < len
    ensures PrevIndex(NextIndex(i, len), len) == i
  {
  }

  /** `k` presses of "Next". */
  function NextTimes(i: int, len: int, k: nat): int
  {
    if k == 0 then i else NextIndex(NextTimes(i, len, k - 1), len)
  }

  /**
   Pressing "Next" `k <= len` times moves `k` places round the list, wrapping
   past the last project; `len` presses come back to the starting project.
   */
  lemma {:induction false} NextTimesWraps(i: int, len: int, k: nat)
    requires 0 <= i < len
    requires k <= len
    ensures NextTimes(i, len, k) == if i + k < len then i + k else i + k - len
  {
    if k > 0 {
      NextTimesWraps(i, len, k - 1);
    }
  }

  /** A full round of "Next" presses returns to the project it started from. */
  lemma FullRotation(i: int, len: int)
    requires 0 <= i < len
    ensures NextTimes(i, len, len) == i
  {
    NextTimesWraps(i, len, len);
  }

  /** An entry of the title stack: a project title and its distance from the current project. */
  datatype StackCard = StackCard(title: string, position: int)

  /** `projects.map((project, idx) => ({ title: project.title, position: idx - currentProjectIndex }))`. */
  function StackCards(titles: seq<string>, current: int): (cards: seq<StackCard>)
    ensures |cards| == |titles|
    ensures forall k :: 0 <= k < |cards| ==> cards[k].title == titles[k]
    ensures forall k :: 0 <= k < |cards| ==> cards[k].position + current == k
  {
    seq(|titles|, k requires 0 <= k < |titles| => StackCard(titles[k], k - current))
  }

  /** The card is drawn highlighted (`position === 0`). */
  predicate Highlighted(card: StackCard) { card.position == 0 }

  /** `Math.abs(position) > 1 ? 0 : 1`. */
  function Opacity(card: StackCard): (o: int)
    ensures o == 1 <==> -1 <= card.position <= 1
    ensures o == 0 || o == 1
  {
    if card.position > 1 || card.position < -1 then 0 else 1
  }

  /** The indices of the cards drawn with opacity 1. */
  function VisibleCards(cards: seq<StackCard>): set<int>
  {
    set k | 0 <= k < |cards| && Opacity(cards[k]) == 1
  }

  /**
   The stack has distinct offsets, exactly one highlighted card (the current
   project's), and at most three visible cards: the current one and its two
   neighbours.
   */
  lemma StackCardsShape(titles: seq<string>, current: int)
    requires 0 <= current < |titles|
    ensures var cards := StackCards(titles, current);
      && (forall k, l :: 0 <= k < l < |cards| ==> cards[k].position != cards[l].position)
      && (forall k :: 0 <= k < |cards| ==> (Highlighted(cards[k]) <==> k == current))
      && cards[current].title == titles[current]
      && current in VisibleCards(cards)
      && VisibleCards(cards) <= {current - 1, current, current + 1}
      && |VisibleCards(cards)| <= 3
  {
    var cards := StackCards(titles, current);
    var v := VisibleCards(cards);
    var around := {current - 1, current, current + 1};
    assert v <= around;
    SubsetCardinality(v, around);
    assert |around| == 3;
  }

  lemma SubsetCardinality(a: set<int>, b: set<int>)
    requires a <= b
    ensures |a| <= |b|
  {
    assert b == a + (b - a);
  }

  /** The state of the showcase kept by the component. */
  datatype Showcase = Showcase(index: int, direction: int, currentTitle: string, isScrambling: bool, isTitleFormed: bool)

  /** `handleNextProject`. */
  function HandleNext(s: Showcase, len: int): (r: Showcase)
    ensures r.direction == 1
    ensures 0 <= s.index < len ==> 0 <= r.index < len
    ensures r.index == NextIndex(s.index, len)
    ensures r.currentTitle == s.currentTitle && r.isScrambling == s.isScrambling && r.isTitleFormed == s.isTitleFormed
  {
    s.(direction := 1, index := NextIndex(s.index, len))
  }

  /** `handlePrevProject`. */
  function HandlePrev(s: Showcase, len: int): (r: Showcase)
    ensures r.direction == -1
    ensures 0 <= s.index < len ==> 0 <= r.index < len
    ensures r.index == PrevIndex(s.index, len)
    ensures r.currentTitle == s.currentTitle && r.isScrambling == s.isScrambling && r.isTitleFormed == s.isTitleFormed
  {
    s.(direction := -1, index := PrevIndex(s.index, len))
  }

  /** "Previous" undoes "Next" on the current project (the direction stays that of the last press). */
  lemma PrevUndoesNext(s: Showcase, len: int)
    requires 0 <= s.index < len
    ensures HandlePrev(HandleNext(s, len), len) == s.(direction := -1)
  {
  }

  /**
   Clicking the `k`-th card of the stack: it becomes the current project, and
   the slide direction is forward for a card to the right of the current one
   and backward otherwise (the current card included).
   */
  function ClickCard(s: Showcase, titles: seq<string>, k: nat): (r: Showcase)
    requires k < |titles|
    ensures r.index == k
    ensures r.direction == 1 <==> k > s.index
    ensures r.direction == -1 <==> k <= s.index
    ensures forall j :: 0 <= j < |titles| ==> (Highlighted(StackCards(titles, r.index)[j]) <==> j == k)
    ensures r == s.(direction := r.direction, index := k)
  {
    var card := StackCards(titles, s.index)[k];
    s.(direction := if card.position > 0 then 1 else -1, index := k)
  }

  /**
   `frames` are the first frames of a forward run over `text` with the given
   order and step count, frame `k` drawing its alphabet characters from
   `picks[k]`.
   */
  predicate ForwardFrames(frames: seq<string>, text: string, order: seq<nat>, steps: nat, picks: seq<seq<nat>>)
  {
    && IsPermutation(order, |text|)
    && |frames| <= |picks|
    && (forall k :: 0 <= k < |picks| ==> |text| <= |picks[k]|)
    && (forall k {:trigger FrameOfRun(frames[k], text, order, k, steps, picks[k])} :: 0 <= k < |frames| ==>
          FrameOfRun(frames[k], text, order, k, steps, picks[k]))
  }

  /** `frame` is frame number `k` of the forward run over `text`, drawing from `p`. */
  predicate FrameOfRun(frame: string, text: string, order: seq<nat>, k: nat, steps: nat, p: seq<nat>)
  {
    IsPermutation(order, |text|) && |text| <= |p| && frame == ForwardFrame(text, order, k, steps, p)
  }

  lemma ForwardFramesExtend(frames: seq<string>, text: string, order: seq<nat>, steps: nat, picks: seq<seq<nat>>, frame: string)
    requires ForwardFrames(frames, text, order, steps, picks)
    requires |frames| < |picks|
    requires frame == ForwardFrame(text, order, |frames|, steps, picks[|frames|])
    ensures ForwardFrames(frames + [frame], text, order, steps, picks)
    ensures 1 <= steps <= |frames| ==> frame == text
  {
    if 1 <= steps <= |frames| {
      ForwardFrameComplete(text, order, |frames|, steps, picks[|frames|]);
    }
  }

  /**
   The forward loop of the transition: it calls the forward closure every
   frame and stops at the first frame equal to the title.  `framePicks[k]`
   holds the alphabet draws of frame `k`.  The loop ends within `steps + 1`
   frames, and on the first one when the title is empty.
   */
  method FormTitle(start: ForwardRun, framePicks: seq<seq<nat>>) returns (frames: seq<string>)
    requires ForwardValid(start)
    requires start.iteration == 0 && start.steps >= 1
    requires |framePicks| > start.steps
    requires forall k :: 0 <= k < |framePicks| ==> |start.text| <= |framePicks[k]|
    ensures 1 <= |frames| <= start.steps + 1
    ensures frames[|frames| - 1] == start.text
    ensures forall k :: 0 <= k < |frames| - 1 ==> frames[k] != start.text
    ensures ForwardFrames(frames, start.text, start.order, start.steps, framePicks)
    ensures start.text == [] ==> |frames| == 1
  {
    var run := start;
    frames := [];
    var complete := false;
    while !complete
      invariant ForwardValid(run)
      invariant run.text == start.text && run.order == start.order && run.steps == start.steps
      invariant run.iteration == |frames|
      invariant |frames| <= run.steps + 1
      invariant !complete ==> |frames| <= run.steps
      invariant complete ==> 1 <= |frames| && frames[|frames| - 1] == start.text
      invariant forall k :: 0 <= k < |frames| - 1 ==> frames[k] != start.text
      invariant !complete ==> forall k :: 0 <= k < |frames| ==> frames[k] != start.text
      invariant ForwardFrames(frames, start.text, start.order, start.steps, framePicks)
      decreases run.steps + 1 - |frames|, !complete
    {
      var res := ForwardStep(run, framePicks[|frames|]);
      ForwardFramesExtend(frames, start.text, start.order, start.steps, framePicks, res.1);
      run := res.0;
      frames := frames + [res.1];
      complete := res.1 == start.text;
    }
    if start.text == [] {
      assert FrameOfRun(frames[0], start.text, start.order, 0, start.steps, framePicks[0]);
    }
  }

  /**
   The dissolve loop of the transition.  The original stops after each frame
   with probability 0.01; here the number of frames is the length of the
   draw oracle `dissolvePicks` (at least one, as the loop body runs before
   the first stop check).
   */
  method RunReverse(title: string, dissolvePicks: seq<seq<nat>>) returns (frames: seq<string>)
    requires |dissolvePicks| >= 1
    requires forall k :: 0 <= k < |dissolvePicks| ==> |title| <= |dissolvePicks[k]|
    ensures |frames| == |dissolvePicks|
    ensures forall k :: 0 <= k < |frames| ==>
              frames[k] == ReverseFrame(title, k, ReverseSteps(|title|), dissolvePicks[k])
  {
    var run := StartReverse(title);
    frames := [];
    while |frames| < |dissolvePicks|
      invariant ReverseValid(run)
      invariant run.text == title && run.steps == ReverseSteps(|title|)
      invariant run.iteration == |frames| <= |dissolvePicks|
      invariant forall k :: 0 <= k < |frames| ==>
                  frames[k] == ReverseFrame(title, k, run.steps, dissolvePicks[k])
    {
      var frame;
      run, frame := ReverseStep(run, dissolvePicks[|frames|]);
      frames := frames + [frame];
    }
  }

  /**
   The transition run whenever the current project changes: the old title
   (if any) is dissolved, then the new title is scrambled in until it is
   formed.  The final state shows the new title, marks it formed and is no
   longer scrambling.
   */
  method AnimateTransition(s: Showcase, titles: seq<string>, dissolvePicks: seq<seq<nat>>,
                           shuffleDraws: seq<nat>, framePicks: seq<seq<nat>>)
    returns (dissolveFrames: seq<string>, formFrames: seq<string>, r: Showcase)
    requires 0 <= s.index < |titles|
    requires s.currentTitle != [] ==> |dissolvePicks| >= 1
    requires forall k :: 0 <= k < |dissolvePicks| ==> |s.currentTitle| <= |dissolvePicks[k]|
    requires |titles[s.index]| <= |shuffleDraws| + 1
    requires |framePicks| > ForwardSteps(|titles[s.index]|)
    requires forall k :: 0 <= k < |framePicks| ==> |titles[s.index]| <= |framePicks[k]|
    ensures s.currentTitle == [] <==> dissolveFrames == []
    ensures s.currentTitle != [] ==> |dissolveFrames| == |dissolvePicks|
    ensures forall k :: 0 <= k < |dissolveFrames| ==>
              |dissolveFrames[k]| == |s.currentTitle| &&
              dissolveFrames[k] == ReverseFrame(s.currentTitle, k, ReverseSteps(|s.currentTitle|), dissolvePicks[k])
    ensures 1 <= |formFrames| <= ForwardSteps(|titles[s.index]|) + 1
    ensures formFrames[|formFrames| - 1] == titles[s.index]
    ensures forall k :: 0 <= k < |formFrames| - 1 ==> formFrames[k] != titles[s.index]
    ensures ForwardFrames(formFrames, titles[s.index], Shuffle(|titles[s.index]|, shuffleDraws),
                          ForwardSteps(|titles[s.index]|), framePicks)
    ensures r == s.(currentTitle := titles[s.index], isScrambling := false, isTitleFormed := true)
  {
    var title := titles[s.index];
    var shown := s.(isScrambling := true, isTitleFormed := false);
    dissolveFrames := [];
    if s.currentTitle != [] {
      dissolveFrames := RunReverse(s.currentTitle, dissolvePicks);
      shown := shown.(currentTitle := dissolveFrames[|dissolveFrames| - 1]);
    }
    var run := StartForward(title, shuffleDraws);
    formFrames := FormTitle(run, framePicks);
    shown := shown.(currentTitle := formFrames[|formFrames| - 1], isTitleFormed := true);
    r := shown.(isScrambling := false);
  }
}
