/**
 The two frame generators of the project-title animation.

 A forward run (`scrambleText`) shuffles the positions of the target once and
 then, frame after frame, shows the target's character at the first
 `Progress` positions of that order and a fresh alphabet character at every
 other position.  A reverse run (`reverseScrambleText`) starts from the
 target and, frame after frame, replaces a growing prefix of it with fresh
 alphabet characters.

 Both generators are closures over a mutable buffer in the original; here a
 run is a value and one frame is one call of a step function that returns
 the next run and the emitted string.  Every random draw is an oracle
 natural (see `Pick`).
 */
module Scramble {
  import opened Timing
  import opened Permutation

  /** The `n` consecutive characters from `first` on. */
  function CharRange(first: char, n: nat): (s: string)
    requires first as int + n <= 0xD800
    ensures |s| == n
    ensures forall i :: 0 <= i < n ==> s[i] as int == first as int + i
  {
    seq(n, i requires 0 <= i < n => (first as int + i) as char)
  }

  /**
   The alphabet unresolved positions are drawn from: the upper-case letters
   followed by the lower-case ones.
   */
  const Characters: string := CharRange('A', 26) + CharRange('a', 26)

  predicate IsLetter(c: char)
  {
    'A' <= c <= 'Z' || 'a' <= c <= 'z'
  }

  /** The alphabet is "A" to "Z" then "a" to "z": 52 letters, in particular no space. */
  lemma CharactersAreLetters()
    ensures |Characters| == 52
    ensures Characters[0] == 'A' && Characters[25] == 'Z' && Characters[26] == 'a' && Characters[51] == 'z'
    ensures forall i :: 0 <= i < |Characters| ==> IsLetter(Characters[i])
  {
    var upper := CharRange('A', 26);
    var lower := CharRange('a', 26);
    forall i | 0 <= i < 52
      ensures IsLetter(Characters[i])
    {
      if i < 26 {
        assert Characters[i] == upper[i];
      } else {
        assert Characters[i] == lower[i - 26];
      }
    }
  }

  /**
   `characters[Math.floor(Math.random() * characters.length)]`, with the draw
   supplied by the oracle.  The alphabet has no space, so a scrambled
   position never shows one.
   */
  function Pick(draw: nat): (c: char)
    ensures c in Characters
    ensures IsLetter(c) && c != ' '
  {
    CharactersAreLetters();
    Characters[draw % |Characters|]
  }

  /**
   One slot of the forward buffer.  The buffer starts as
   `new Array(len).fill('')`, so a slot is either still the empty string or
   holds one character.
   */
  datatype Cell = Blank | Shown(c: char)

  function Blanks(n: nat): (cells: seq<Cell>)
    ensures |cells| == n
    ensures forall k :: 0 <= k < n ==> cells[k] == Blank
  {
    seq(n, k => Blank)
  }

  predicate AllShown(cells: seq<Cell>)
  {
    forall k :: 0 <= k < |cells| ==> cells[k].Shown?
  }

  /**
   `currentText.join('')`: blank slots contribute nothing, so the string is
   as long as the buffer exactly when every slot has been written.
   */
  function Join(cells: seq<Cell>): (s: string)
    ensures |s| <= |cells|
    ensures |s| == |cells| <==> AllShown(cells)
    ensures AllShown(cells) ==> forall k :: 0 <= k < |cells| ==> s[k] == cells[k].c
  {
    if cells == [] then
      []
    else
      var head := match cells[0] case Blank => [] case Shown(c) => [c];
      assert AllShown(cells) ==> AllShown(cells[1..]);
      assert AllShown(cells[1..]) && cells[0].Shown? ==> AllShown(cells);
      head + Join(cells[1..])
  }

  /** The `forEach` that writes `text[pos]` into the slot of every position in `ps`. */
  function Resolve(buffer: seq<Cell>, text: string, ps: seq<nat>): (r: seq<Cell>)
    requires |buffer| == |text|
    requires forall k :: 0 <= k < |ps| ==> ps[k] < |text|
    ensures |r| == |buffer|
    ensures forall p :: 0 <= p < |buffer| && p in ps ==> r[p] == Shown(text[p])
    ensures forall p :: 0 <= p < |buffer| && p !in ps ==> r[p] == buffer[p]
    decreases |ps|
  {
    if ps == [] then
      buffer
    else
      Resolve(buffer[ps[0] := Shown(text[ps[0]])], text, ps[1..])
  }

  /**
   The `forEach` that writes a fresh alphabet character into the slot of every
   position in `ps`; the `k`-th position of `ps` consumes the `k`-th draw.
   */
  function ScrambleSlots(buffer: seq<Cell>, ps: seq<nat>, picks: seq<nat>): (r: seq<Cell>)
    requires forall k :: 0 <= k < |ps| ==> ps[k] < |buffer|
    requires |ps| <= |picks|
    ensures |r| == |buffer|
    decreases |ps|
  {
    if ps == [] then
      buffer
    else
      ScrambleSlots(buffer[ps[0] := Shown(Pick(picks[0]))], ps[1..], picks[1..])
  }

  /** A slot whose position is not listed keeps what it held. */
  lemma {:induction false} ScrambleKeeps(buffer: seq<Cell>, ps: seq<nat>, picks: seq<nat>, p: nat)
    requires forall k :: 0 <= k < |ps| ==> ps[k] < |buffer|
    requires |ps| <= |picks|
    requires p < |buffer| && p !in ps
    ensures ScrambleSlots(buffer, ps, picks)[p] == buffer[p]
    decreases |ps|
  {
    if ps != [] {
      assert p != ps[0];
      assert p !in ps[1..];
      ScrambleKeeps(buffer[ps[0] := Shown(Pick(picks[0]))], ps[1..], picks[1..], p);
    }
  }

  /**
   When no position is listed twice, each listed position shows exactly the
   character of its own draw (a later write never overwrites an earlier one).
   */
  lemma {:induction false} ScrambleDraws(buffer: seq<Cell>, ps: seq<nat>, picks: seq<nat>)
    requires forall k :: 0 <= k < |ps| ==> ps[k] < |buffer|
    requires |ps| <= |picks|
    requires Distinct(ps)
    ensures forall k :: 0 <= k < |ps| ==> ScrambleSlots(buffer, ps, picks)[ps[k]] == Shown(Pick(picks[k]))
    decreases |ps|
  {
    if ps != [] {
      var b := buffer[ps[0] := Shown(Pick(picks[0]))];
      var tail := ps[1..];
      assert Distinct(tail);
      ScrambleDraws(b, tail, picks[1..]);
      assert forall k :: 1 <= k < |ps| ==> ps[k] == tail[k - 1];
      assert ps[0] !in tail;
      ScrambleKeeps(b, tail, picks[1..], ps[0]);
    }
  }

  /**
   Scrambling the tail of an order from its `m`-th entry on: the `k`-th entry
   of the order shows draw number `k - m`.
   */
  lemma ScrambleSuffixAt(buffer: seq<Cell>, order: seq<nat>, m: nat, picks: seq<nat>, k: nat)
    requires forall i :: 0 <= i < |order| ==> order[i] < |buffer|
    requires m <= k < |order|
    requires |order| - m <= |picks|
    requires Distinct(order[m..])
    ensures ScrambleSlots(buffer, order[m..], picks)[order[k]] == Shown(Pick(picks[k - m]))
  {
    var rest := order[m..];
    assert rest[k - m] == order[k];
    ScrambleDraws(buffer, rest, picks);
  }

  /**
   The slots after one forward frame: the first `m` positions of the order
   resolved, the rest scrambled.
   */
  function ForwardCells(buffer: seq<Cell>, text: string, order: seq<nat>, m: nat, picks: seq<nat>): (cells: seq<Cell>)
    requires IsPermutation(order, |text|)
    requires |buffer| == |text|
    requires m <= |text|
    requires |text| <= |picks|
    ensures |cells| == |text|
  {
    ScrambleSlots(Resolve(buffer, text, order[..m]), order[m..], picks)
  }

  /** A position among the first `m` of the order is resolved by the frame. */
  lemma ResolvedSlot(buffer: seq<Cell>, text: string, order: seq<nat>, m: nat, picks: seq<nat>, k: nat)
    requires IsPermutation(order, |text|)
    requires |buffer| == |text|
    requires k < m <= |text|
    requires |text| <= |picks|
    ensures ForwardCells(buffer, text, order, m, picks)[order[k]] == Shown(text[order[k]])
  {
    PermutationDistinct(order, |text|);
    PrefixNotInSuffix(order, m, k);
    assert order[..m][k] == order[k];
    ScrambleKeeps(Resolve(buffer, text, order[..m]), order[m..], picks, order[k]);
  }

  /** A position from the `m`-th of the order on shows the alphabet character of its draw. */
  lemma ScrambledSlot(buffer: seq<Cell>, text: string, order: seq<nat>, m: nat, picks: seq<nat>, k: nat)
    requires IsPermutation(order, |text|)
    requires |buffer| == |text|
    requires m <= k < |text|
    requires |text| <= |picks|
    ensures ForwardCells(buffer, text, order, m, picks)[order[k]] == Shown(Pick(picks[k - m]))
  {
    PermutationSuffixDistinct(order, |text|, m);
    PermutationBounds(order, |text|);
    ScrambleSuffixAt(Resolve(buffer, text, order[..m]), order, m, picks, k);
  }

  /**
   Every slot is written by a forward frame: the first `m` positions of the
   order hold the target, the others the characters of their draws.
   */
  lemma ForwardCellsContents(buffer: seq<Cell>, text: string, order: seq<nat>, m: nat, picks: seq<nat>)
    requires IsPermutation(order, |text|)
    requires |buffer| == |text|
    requires m <= |text|
    requires |text| <= |picks|
    ensures forall k :: 0 <= k < m ==> ForwardCells(buffer, text, order, m, picks)[order[k]] == Shown(text[order[k]])
    ensures forall k :: m <= k < |text| ==> ForwardCells(buffer, text, order, m, picks)[order[k]] == Shown(Pick(picks[k - m]))
  {
    forall k | 0 <= k < m
      ensures ForwardCells(buffer, text, order, m, picks)[order[k]] == Shown(text[order[k]])
    {
      ResolvedSlot(buffer, text, order, m, picks, k);
    }
    forall k | m <= k < |text|
      ensures ForwardCells(buffer, text, order, m, picks)[order[k]] == Shown(Pick(picks[k - m]))
    {
      ScrambledSlot(buffer, text, order, m, picks, k);
    }
  }

  /**
   What a slot holds after a forward frame does not depend on the buffer left
   by earlier frames: every slot is written, unresolved positions are redrawn
   every frame, and nothing of an earlier frame survives.
   */
  lemma FrameIgnoresBuffer(b1: seq<Cell>, b2: seq<Cell>, text: string, order: seq<nat>, m: nat, picks: seq<nat>)
    requires IsPermutation(order, |text|)
    requires |b1| == |text| && |b2| == |text|
    requires m <= |text|
    requires |text| <= |picks|
    ensures AllShown(ForwardCells(b1, text, order, m, picks))
    ensures ForwardCells(b1, text, order, m, picks) == ForwardCells(b2, text, order, m, picks)
  {
    ForwardCellsContents(b1, text, order, m, picks);
    ForwardCellsContents(b2, text, order, m, picks);
    PermutationCovers(order, |text|);
    var c1 := ForwardCells(b1, text, order, m, picks);
    var c2 := ForwardCells(b2, text, order, m, picks);
    forall p | 0 <= p < |text|
      ensures c1[p].Shown? && c1[p] == c2[p]
    {
      var k := IndexOf(order, p);
    }
  }

  /**
   The string emitted by frame number `iteration` of a forward run with the
   given order; `ForwardFrameContents` says what it holds.
   */
  function ForwardFrame(text: string, order: seq<nat>, iteration: nat, steps: nat, picks: seq<nat>): (frame: string)
    requires IsPermutation(order, |text|)
    requires |text| <= |picks|
    ensures |frame| == |text|
  {
    var m := Progress(iteration, steps, |text|);
    JoinForwardCells(Blanks(|text|), text, order, m, picks);
    Join(ForwardCells(Blanks(|text|), text, order, m, picks))
  }

  /**
   A forward frame shows the target at the first `Progress` positions of the
   order, and at each later position of the order the alphabet character of
   that position's draw.
   */
  lemma ForwardFrameContents(text: string, order: seq<nat>, iteration: nat, steps: nat, picks: seq<nat>)
    requires IsPermutation(order, |text|)
    requires |text| <= |picks|
    ensures forall k :: 0 <= k < Progress(iteration, steps, |text|) ==>
              ForwardFrame(text, order, iteration, steps, picks)[order[k]] == text[order[k]]
    ensures forall j :: 0 <= j < |text| - Progress(iteration, steps, |text|) ==>
              ForwardFrame(text, order, iteration, steps, picks)[order[Progress(iteration, steps, |text|) + j]] == Pick(picks[j])
  {
    var m := Progress(iteration, steps, |text|);
    FrameIsJoin(text, order, iteration, steps, picks);
    JoinForwardCells(Blanks(|text|), text, order, m, picks);
    var frame := ForwardFrame(text, order, iteration, steps, picks);
    forall j | 0 <= j < |text| - m
      ensures frame[order[m + j]] == Pick(picks[j])
    {
      assert m <= m + j < |text|;
      assert m + j - m == j;
    }
  }

  lemma FrameIsJoin(text: string, order: seq<nat>, iteration: nat, steps: nat, picks: seq<nat>)
    requires IsPermutation(order, |text|)
    requires |text| <= |picks|
    ensures ForwardFrame(text, order, iteration, steps, picks)
         == Join(ForwardCells(Blanks(|text|), text, order, Progress(iteration, steps, |text|), picks))
  {
  }

  /** The joined string of a forward frame, read off at the positions of the order. */
  lemma JoinForwardCells(buffer: seq<Cell>, text: string, order: seq<nat>, m: nat, picks: seq<nat>)
    requires IsPermutation(order, |text|)
    requires |buffer| == |text|
    requires m <= |text|
    requires |text| <= |picks|
    ensures |Join(ForwardCells(buffer, text, order, m, picks))| == |text|
    ensures forall k :: 0 <= k < m ==> Join(ForwardCells(buffer, text, order, m, picks))[order[k]] == text[order[k]]
    ensures forall k :: m <= k < |text| ==> Join(ForwardCells(buffer, text, order, m, picks))[order[k]] == Pick(picks[k - m])
  {
    var cells := ForwardCells(buffer, text, order, m, picks);
    ForwardCellsContents(buffer, text, order, m, picks);
    FrameIgnoresBuffer(buffer, buffer, text, order, m, picks);
    var s := Join(cells);
    assert |s| == |text|;
    forall k | 0 <= k < |text|
      ensures s[order[k]] == cells[order[k]].c
    {
    }
  }

  /** The positions a frame has resolved: the first `Progress` entries of the order. */
  function Resolved(order: seq<nat>, iteration: nat, steps: nat): (ps: seq<nat>)
  {
    order[..Progress(iteration, steps, |order|)]
  }

  /** One position of a forward frame: the target's character if resolved, a letter otherwise. */
  lemma FramePosition(text: string, order: seq<nat>, iteration: nat, steps: nat, picks: seq<nat>, p: nat)
    requires IsPermutation(order, |text|)
    requires |text| <= |picks|
    requires p < |text|
    ensures p in Resolved(order, iteration, steps) ==> ForwardFrame(text, order, iteration, steps, picks)[p] == text[p]
    ensures p !in Resolved(order, iteration, steps) ==>
              IsLetter(ForwardFrame(text, order, iteration, steps, picks)[p])
  {
    PermutationCovers(order, |text|);
    PermutationDistinct(order, |text|);
    ForwardFrameContents(text, order, iteration, steps, picks);
    var frame := ForwardFrame(text, order, iteration, steps, picks);
    var m := Progress(iteration, steps, |text|);
    var k := IndexOf(order, p);
    if k < m {
      assert frame[order[k]] == text[order[k]];
      assert order[..m][k] == p;
    } else {
      assert frame[order[m + (k - m)]] == Pick(picks[k - m]);
      forall l | 0 <= l < m
        ensures order[..m][l] != p
      {
        assert order[l] != order[k];
      }
      assert p !in order[..m];
    }
  }

  /**
   Position by position: a resolved position shows the target's character,
   any other position shows a letter of the alphabet (never a space, even
   where the target has one).
   */
  lemma ForwardFramePositions(text: string, order: seq<nat>, iteration: nat, steps: nat, picks: seq<nat>)
    requires IsPermutation(order, |text|)
    requires |text| <= |picks|
    ensures forall p :: 0 <= p < |text| && p in Resolved(order, iteration, steps) ==>
              ForwardFrame(text, order, iteration, steps, picks)[p] == text[p]
    ensures forall p :: 0 <= p < |text| && p !in Resolved(order, iteration, steps) ==>
              IsLetter(ForwardFrame(text, order, iteration, steps, picks)[p])
  {
    forall p | 0 <= p < |text|
      ensures p in Resolved(order, iteration, steps) ==> ForwardFrame(text, order, iteration, steps, picks)[p] == text[p]
      ensures p !in Resolved(order, iteration, steps) ==> IsLetter(ForwardFrame(text, order, iteration, steps, picks)[p])
    {
      FramePosition(text, order, iteration, steps, picks, p);
    }
  }

  /**
   Spaces get no special treatment: an unresolved position that holds a space
   in the target shows a letter, so the frame is not yet the target.
   */
  lemma UnresolvedSpaceScrambled(text: string, order: seq<nat>, iteration: nat, steps: nat, picks: seq<nat>, p: nat)
    requires IsPermutation(order, |text|)
    requires |text| <= |picks|
    requires p < |text| && text[p] == ' '
    requires p !in Resolved(order, iteration, steps)
    ensures ForwardFrame(text, order, iteration, steps, picks)[p] != ' '
    ensures ForwardFrame(text, order, iteration, steps, picks) != text
  {
    FramePosition(text, order, iteration, steps, picks, p);
  }

  /**
   Once the frame counter reaches the step count, the frame is the target
   itself.  With a step count of 0 the very first frame is still fully
   scrambled (the original computes `0 / 0`), so that case needs one more frame.
   */
  lemma ForwardFrameComplete(text: string, order: seq<nat>, iteration: nat, steps: nat, picks: seq<nat>)
    requires IsPermutation(order, |text|)
    requires |text| <= |picks|
    requires steps <= iteration && 0 < iteration
    ensures ForwardFrame(text, order, iteration, steps, picks) == text
  {
    PermutationCovers(order, |text|);
    ForwardFrameContents(text, order, iteration, steps, picks);
    var frame := ForwardFrame(text, order, iteration, steps, picks);
    forall p | 0 <= p < |text|
      ensures frame[p] == text[p]
    {
      var k := IndexOf(order, p);
    }
  }

  /**
   A position resolved by one frame is resolved, and shows the target's
   character, in every later frame of the same run.
   */
  lemma ResolvedStaysResolved(text: string, order: seq<nat>, i: nat, j: nat, steps: nat, picks: seq<nat>, p: nat)
    requires IsPermutation(order, |text|)
    requires |text| <= |picks|
    requires i <= j
    requires p in Resolved(order, i, steps)
    ensures p in Resolved(order, j, steps)
    ensures p < |text| && ForwardFrame(text, order, j, steps, picks)[p] == text[p]
  {
    PermutationBounds(order, |text|);
    ProgressMonotone(i, j, steps, |text|);
    var mi := Progress(i, steps, |text|);
    var mj := Progress(j, steps, |text|);
    var k := IndexOf(order[..mi], p);
    assert order[..mj][k] == p;
    ForwardFrameContents(text, order, j, steps, picks);
  }

  /** The state of a forward run between two frames. */
  datatype ForwardRun = ForwardRun(text: string, order: seq<nat>, buffer: seq<Cell>, iteration: nat, steps: nat)

  predicate ForwardValid(run: ForwardRun)
  {
    IsPermutation(run.order, |run.text|) && |run.buffer| == |run.text|
  }

  /** `scrambleLine(text)` before its first frame: order shuffled, buffer blank. */
  function StartForward(text: string, draws: seq<nat>): (run: ForwardRun)
    requires |text| <= |draws| + 1
    ensures ForwardValid(run)
    ensures run.text == text && run.iteration == 0
    ensures run.steps == ForwardSteps(|text|) && run.steps >= 1
    ensures run.order == Shuffle(|text|, draws)
    ensures run.buffer == Blanks(|text|)
  {
    DefaultStepCounts(|text|);
    ForwardRun(text, Shuffle(|text|, draws), Blanks(|text|), 0, ForwardSteps(|text|))
  }

  /**
   One call of the forward closure: it emits the frame for the current
   counter and advances the counter.  The emitted string is the reference
   frame `ForwardFrame`, whatever the buffer held before.
   */
  function ForwardStep(run: ForwardRun, picks: seq<nat>): (res: (ForwardRun, string))
    requires ForwardValid(run)
    requires |run.text| <= |picks|
    ensures ForwardValid(res.0)
    ensures res.0.text == run.text && res.0.order == run.order && res.0.steps == run.steps
    ensures res.0.iteration == run.iteration + 1
    ensures res.1 == ForwardFrame(run.text, run.order, run.iteration, run.steps, picks)
  {
    var m := Progress(run.iteration, run.steps, |run.text|);
    var cells := ForwardCells(run.buffer, run.text, run.order, m, picks);
    FrameIgnoresBuffer(run.buffer, Blanks(|run.text|), run.text, run.order, m, picks);
    (run.(buffer := cells, iteration := run.iteration + 1), Join(cells))
  }

  /**
   The string emitted by frame number `iteration` of a reverse run: the first
   `Progress` characters are fresh alphabet characters, the rest is the text.
   */
  function ReverseFrame(text: string, iteration: nat, steps: nat, picks: seq<nat>): (frame: string)
    requires |text| <= |picks|
    ensures |frame| == |text|
  {
    var m := Progress(iteration, steps, |text|);
    seq(|text|, i requires 0 <= i < |text| => if i < m then Pick(picks[i]) else text[i])
  }

  /**
   A reverse frame keeps every character from `Progress` on and shows an
   alphabet character before it; it differs from the text only inside that
   prefix.
   */
  lemma ReverseFramePositions(text: string, iteration: nat, steps: nat, picks: seq<nat>)
    requires |text| <= |picks|
    ensures var m := Progress(iteration, steps, |text|);
      && ReverseFrame(text, iteration, steps, picks)[m..] == text[m..]
      && forall i :: 0 <= i < m ==> ReverseFrame(text, iteration, steps, picks)[i] in Characters
  {
  }

  /** The state of a reverse run between two frames. */
  datatype ReverseRun = ReverseRun(text: string, buffer: string, iteration: nat, steps: nat)

  /**
   The buffer still holds the text at every index the current counter has
   not reached: earlier frames randomised only a shorter prefix.
   */
  predicate ReverseValid(run: ReverseRun)
  {
    && |run.buffer| == |run.text|
    && forall i :: Progress(run.iteration, run.steps, |run.text|) <= i < |run.text| ==> run.buffer[i] == run.text[i]
  }

  /** `reverseScrambleLine(text)` before its first frame: the buffer is `text.split('')`. */
  function StartReverse(text: string): (run: ReverseRun)
    ensures ReverseValid(run)
    ensures run.text == text && run.buffer == text && run.iteration == 0
    ensures run.steps == ReverseSteps(|text|) && run.steps >= 1
  {
    DefaultStepCounts(|text|);
    ReverseRun(text, text, 0, ReverseSteps(|text|))
  }

  /**
   One call of the reverse closure: the loop `for (i = 0; i < numToRandomize; i++)`
   over the persistent buffer.  Because the randomised prefix only grows, the
   emitted string is the reference frame `ReverseFrame`.
   */
  method ReverseStep(run: ReverseRun, picks: seq<nat>) returns (next: ReverseRun, frame: string)
    requires ReverseValid(run)
    requires |run.text| <= |picks|
    ensures ReverseValid(next)
    ensures next.text == run.text && next.steps == run.steps
    ensures next.iteration == run.iteration + 1 && next.buffer == frame
    ensures frame == ReverseFrame(run.text, run.iteration, run.steps, picks)
  {
    var m := Progress(run.iteration, run.steps, |run.text|);
    var buffer := run.buffer;
    var i := 0;
    while i < m
      invariant 0 <= i <= m
      invariant |buffer| == |run.buffer|
      invariant forall k :: 0 <= k < i ==> buffer[k] == Pick(picks[k])
      invariant forall k :: i <= k < |buffer| ==> buffer[k] == run.buffer[k]
    {
      buffer := buffer[i := Pick(picks[i])];
      i := i + 1;
    }
    ProgressMonotone(run.iteration, run.iteration + 1, run.steps, |run.text|);
    frame := buffer;
    next := run.(buffer := buffer, iteration := run.iteration + 1);
  }

  /**
   Reverse frames only get more random: everything a later frame keeps of the
   text, an earlier frame kept too.
   */
  lemma ReverseKeepsShrinking(text: string, i: nat, j: nat, steps: nat, pi: seq<nat>, pj: seq<nat>)
    requires |text| <= |pi| && |text| <= |pj|
    requires i <= j
    ensures forall k :: Progress(j, steps, |text|) <= k < |text| ==>
              ReverseFrame(text, i, steps, pi)[k] == text[k] && ReverseFrame(text, j, steps, pj)[k] == text[k]
  {
    ProgressMonotone(i, j, steps, |text|);
  }
}
