/**
 * The bubble rotation of the display page (components/MessageContainer.tsx):
 * reading-time durations, height estimates, padded rectangle collisions, a
 * bounded random placement search, and the admission/completion state of the
 * bubbles on screen. `Math.random()` is an oracle `rnd`: `rnd(k)` is the k-th
 * draw of the placement search.
 */
module MessageContainer {
  import opened Wrappers
  import opened Constants

  /** A bubble on screen: `{id, text, x, y, duration}` (duration in seconds). */
  datatype Bubble = Bubble(id: string, text: string, x: real, y: real, duration: real)

  datatype Position = Position(x: real, y: real)

  datatype Rect = Rect(x: real, y: real, width: real, height: real)

  /** Viewport size, bubble width and the height of the bubble being placed. */
  datatype Layout = Layout(maxWidth: real, maxHeight: real, messageWidth: real, messageHeight: real)

  const BubbleWidth: real := 280.0
  const PlacementPadding: real := 20.0
  const CollisionPadding: real := 30.0
  const MaxAttempts: nat := 50
  const DefaultMaxConcurrent: nat := 4

  /** `calculateDuration`: 2 s plus one second per 50 characters, at most 8 s. */
  function CalculateDuration(text: string): (r: real)
    ensures 2.0 <= r <= 8.0
  {
    var baseTime := 2.0;
    var readingSpeed := 50.0;
    var additionalTime := |text| as real / readingSpeed;
    Max(baseTime, Min(baseTime + additionalTime, 8.0))
  }

  /** Up to 300 characters the duration grows linearly; from 300 on it is 8 s. */
  lemma CalculateDurationByLength(text: string)
    ensures |text| <= 300 ==> CalculateDuration(text) == 2.0 + |text| as real / 50.0
    ensures |text| >= 300 ==> CalculateDuration(text) == 8.0
  {
  }

  /** A longer text is shown at least as long. */
  lemma CalculateDurationMonotone(a: string, b: string)
    requires |a| <= |b|
    ensures CalculateDuration(a) <= CalculateDuration(b)
  {
  }

  /** `Math.ceil(length / perLine)`: the fewest lines of `perLine` characters that hold `length`. */
  function LineCount(length: nat, perLine: nat): (lines: nat)
    requires perLine > 0
    ensures length <= lines * perLine
    ensures lines == 0 || (lines - 1) * perLine < length
  {
    (length + perLine - 1) / perLine
  }

  /** `Math.floor(maxWidth / 10)`: about ten pixels per character. */
  function CharsPerLine(maxWidth: real): (n: nat)
    requires maxWidth >= 10.0
    ensures n >= 1 && n as real <= maxWidth / 10.0 < n as real + 1.0
  {
    (maxWidth / 10.0).Floor
  }

  /** `estimateMessageHeight`: 24 px of padding plus 22.4 px per line, at least 60 px. */
  function EstimateMessageHeight(text: string, maxWidth: real): (h: real)
    requires maxWidth >= 10.0
    ensures h >= 60.0
  {
    var padding := 24.0;
    var lineHeight := 22.4;
    var lines := LineCount(|text|, CharsPerLine(maxWidth));
    Max(padding + lines as real * lineHeight, 60.0)
  }

  /** At the bubble width of 280 px a line holds 28 characters: up to 28
      characters the height is the 60 px floor, from 29 on it is 24 px plus 22.4
      px for each line of 28. */
  lemma EstimateAtBubbleWidth(text: string)
    ensures CharsPerLine(BubbleWidth) == 28
    ensures |text| <= 28 ==> EstimateMessageHeight(text, BubbleWidth) == 60.0
    ensures |text| > 28 ==> EstimateMessageHeight(text, BubbleWidth) == 24.0 + LineCount(|text|, 28) as real * 22.4
  {
    assert CharsPerLine(BubbleWidth) == 28;
    if |text| > 28 {
      assert LineCount(|text|, 28) >= 2;
    }
  }

  /** `checkCollision`: the rectangles, grown by `padding`, touch or overlap. */
  function CheckCollision(a: Rect, b: Rect, padding: real): bool {
    !(a.x + a.width + padding < b.x ||
      b.x + b.width + padding < a.x ||
      a.y + a.height + padding < b.y ||
      b.y + b.height + padding < a.y)
  }

  /** The empty space between two rectangles along one axis (negative when their extents overlap). */
  function Gap(start1: real, size1: real, start2: real, size2: real): real {
    Max(start2 - (start1 + size1), start1 - (start2 + size2))
  }

  /** The rectangles are more than `padding` apart horizontally or vertically. */
  predicate Separated(a: Rect, b: Rect, padding: real) {
    Gap(a.x, a.width, b.x, b.width) > padding || Gap(a.y, a.height, b.y, b.height) > padding
  }

  /** Two rectangles collide exactly when they are not separated by more than the padding. */
  lemma CollisionIffNotSeparated(a: Rect, b: Rect, padding: real)
    ensures CheckCollision(a, b, padding) <==> !Separated(a, b, padding)
  {
  }

  lemma CollisionSymmetric(a: Rect, b: Rect, padding: real)
    ensures CheckCollision(a, b, padding) == CheckCollision(b, a, padding)
  {
  }

  /** A rectangle of non-negative size collides with itself. */
  lemma CollisionReflexive(a: Rect, padding: real)
    requires a.width >= 0.0 && a.height >= 0.0 && padding >= 0.0
    ensures CheckCollision(a, a, padding)
  {
  }

  /** The rectangle an existing bubble takes, at the given bubble width. */
  function Footprint(b: Bubble, messageWidth: real): Rect
    requires messageWidth >= 10.0
  {
    Rect(b.x, b.y, messageWidth, EstimateMessageHeight(b.text, messageWidth))
  }

  /** A bubble placed at `pos` collides with no existing bubble. */
  predicate Free(layout: Layout, pos: Position, existing: seq<Bubble>)
    requires layout.messageWidth >= 10.0
  {
    forall i :: 0 <= i < |existing| ==>
      !CheckCollision(Rect(pos.x, pos.y, layout.messageWidth, layout.messageHeight),
                      Footprint(existing[i], layout.messageWidth), CollisionPadding)
  }

  /** `Math.random() * range`: the draw `r` scaled to the range. */
  function Scale(r: real, range: real): real {
    r * range
  }

  /** A draw in [0, 1) scales into [0, range). */
  lemma ScaleBelow(r: real, range: real)
    requires 0.0 <= r < 1.0 && range > 0.0
    ensures 0.0 <= Scale(r, range) < range
  {
  }

  /** The position drawn at attempt `k` from draws 2k (x) and 2k+1 (y). */
  function Candidate(layout: Layout, rnd: nat -> real, k: nat): Position {
    Position(Scale(rnd(2 * k), layout.maxWidth - layout.messageWidth - PlacementPadding * 2.0) + PlacementPadding,
             Scale(rnd(2 * k + 1), layout.maxHeight - layout.messageHeight - PlacementPadding * 2.0) + PlacementPadding)
  }

  /** The outcome of the placement search: the first collision-free candidate
      among the first `maxAttempts`, or else, all of them colliding, the next
      draw unchecked. */
  ghost predicate FirstFit(layout: Layout, rnd: nat -> real, maxAttempts: nat, existing: seq<Bubble>, pos: Position)
    requires layout.messageWidth >= 10.0
  {
    (exists k :: 0 <= k < maxAttempts && pos == Candidate(layout, rnd, k) && Free(layout, pos, existing) &&
       forall j :: 0 <= j < k ==> !Free(layout, Candidate(layout, rnd, j), existing))
    || (pos == Candidate(layout, rnd, maxAttempts) &&
        forall j :: 0 <= j < maxAttempts ==> !Free(layout, Candidate(layout, rnd, j), existing))
  }

  /** A draw in [0, 1) puts the candidate inside the viewport less the margins. */
  lemma CandidateInViewport(layout: Layout, rnd: nat -> real, k: nat)
    requires 0.0 <= rnd(2 * k) < 1.0 && 0.0 <= rnd(2 * k + 1) < 1.0
    requires layout.maxWidth - layout.messageWidth - PlacementPadding * 2.0 > 0.0
    requires layout.maxHeight - layout.messageHeight - PlacementPadding * 2.0 > 0.0
    ensures PlacementPadding <= Candidate(layout, rnd, k).x < layout.maxWidth - layout.messageWidth - PlacementPadding
    ensures PlacementPadding <= Candidate(layout, rnd, k).y < layout.maxHeight - layout.messageHeight - PlacementPadding
  {
    ScaleBelow(rnd(2 * k), layout.maxWidth - layout.messageWidth - PlacementPadding * 2.0);
    ScaleBelow(rnd(2 * k + 1), layout.maxHeight - layout.messageHeight - PlacementPadding * 2.0);
  }

  /** The inner loop of the search: does a bubble at `pos` collide with any existing one? */
  method HasCollision(layout: Layout, pos: Position, existing: seq<Bubble>) returns (hasCollision: bool)
    requires layout.messageWidth >= 10.0
    ensures hasCollision <==> !Free(layout, pos, existing)
  {
    hasCollision := false;
    var i := 0;
    while i < |existing|
      invariant 0 <= i <= |existing|
      invariant forall j :: 0 <= j < i ==>
        !CheckCollision(Rect(pos.x, pos.y, layout.messageWidth, layout.messageHeight),
                        Footprint(existing[j], layout.messageWidth), CollisionPadding)
    {
      var msg := existing[i];
      var existingHeight := EstimateMessageHeight(msg.text, layout.messageWidth);
      if CheckCollision(Rect(pos.x, pos.y, layout.messageWidth, layout.messageHeight),
                        Rect(msg.x, msg.y, layout.messageWidth, existingHeight), CollisionPadding) {
        hasCollision := true;
        break;
      }
      i := i + 1;
    }
  }

  /** `getRandomPosition`: up to `maxAttempts` random candidates, the first
      that collides with no existing bubble wins; otherwise one more random,
      unchecked position. It never fails. */
  method GetRandomPosition(maxWidth: real, maxHeight: real, text: string, existing: seq<Bubble>,
                           messageWidth: real, maxAttempts: nat, rnd: nat -> real)
    returns (pos: Position)
    requires messageWidth >= 10.0
    ensures FirstFit(Layout(maxWidth, maxHeight, messageWidth, EstimateMessageHeight(text, messageWidth)),
                     rnd, maxAttempts, existing, pos)
  {
    var layout := Layout(maxWidth, maxHeight, messageWidth, EstimateMessageHeight(text, messageWidth));
    var attempt := 0;
    while attempt < maxAttempts
      invariant 0 <= attempt <= maxAttempts
      invariant forall j :: 0 <= j < attempt ==> !Free(layout, Candidate(layout, rnd, j), existing)
    {
      var x := Scale(rnd(2 * attempt), maxWidth - messageWidth - PlacementPadding * 2.0) + PlacementPadding;
      var y := Scale(rnd(2 * attempt + 1), maxHeight - layout.messageHeight - PlacementPadding * 2.0) + PlacementPadding;
      var hasCollision := HasCollision(layout, Position(x, y), existing);
      if !hasCollision {
        pos := Position(x, y);
        assert pos == Candidate(layout, rnd, attempt);
        return;
      }
      attempt := attempt + 1;
    }
    pos := Position(Scale(rnd(2 * maxAttempts), maxWidth - messageWidth - PlacementPadding * 2.0) + PlacementPadding,
                    Scale(rnd(2 * maxAttempts + 1), maxHeight - layout.messageHeight - PlacementPadding * 2.0) + PlacementPadding);
  }

  /** `prev.filter(msg => msg.id !== id)`. */
  function RemoveId(s: seq<Bubble>, id: string): (r: seq<Bubble>)
    ensures |r| <= |s|
    ensures forall b :: b in r ==> b in s && b.id != id
  {
    if s == [] then []
    else (if s[0].id == id then [] else [s[0]]) + RemoveId(s[1..], id)
  }

  /** Removal distributes over concatenation: the kept bubbles stay in order. */
  lemma {:induction false} RemoveIdAppend(a: seq<Bubble>, b: seq<Bubble>, id: string)
    ensures RemoveId(a + b, id) == RemoveId(a, id) + RemoveId(b, id)
  {
    if a != [] {
      assert (a + b)[1..] == a[1..] + b;
      RemoveIdAppend(a[1..], b, id);
    } else {
      assert a + b == b;
    }
  }

  /** Every bubble with another id is kept. */
  lemma {:induction false} RemoveIdKeepsOthers(s: seq<Bubble>, id: string, b: Bubble)
    requires b in s && b.id != id
    ensures b in RemoveId(s, id)
  {
    if s[0] != b {
      RemoveIdKeepsOthers(s[1..], id, b);
    }
  }

  /** With no bubble of that id on screen, nothing changes. */
  lemma {:induction false} RemoveIdAbsent(s: seq<Bubble>, id: string)
    requires forall i :: 0 <= i < |s| ==> s[i].id != id
    ensures RemoveId(s, id) == s
  {
    if s != [] {
      RemoveIdAbsent(s[1..], id);
    }
  }

  /**
   * The component's state: the bubbles on screen (`activeMessages`), the
   * cyclic index of the next text (`messageIndex`) and the window size. The
   * `messages` and `maxConcurrent` props are fixed for the instance.
   */
  class MessageRotation {
    const messages: seq<string>
    const maxConcurrent: nat
    var active: seq<Bubble>
    var messageIndex: nat
    var width: real
    var height: real

    /** At most `maxConcurrent` bubbles, and the index points into `messages`. */
    ghost predicate Valid()
      reads this
    {
      |active| <= maxConcurrent &&
      (if messages == [] then messageIndex == 0 else messageIndex < |messages|)
    }

    /** Mounting with the `messages` prop and an optional `maxConcurrent`
        prop, which defaults to 4 when absent. */
    constructor (messages: seq<string>, maxConcurrent: Option<nat>)
      ensures Valid()
      ensures this.messages == messages
      ensures maxConcurrent.None? ==> this.maxConcurrent == DefaultMaxConcurrent
      ensures maxConcurrent.Some? ==> this.maxConcurrent == maxConcurrent.value
      ensures active == [] && messageIndex == 0 && width == 0.0 && height == 0.0
    {
      this.messages := messages;
      this.maxConcurrent := if maxConcurrent.Some? then maxConcurrent.value else DefaultMaxConcurrent;
      active := [];
      messageIndex := 0;
      width := 0.0;
      height := 0.0;
    }

    /** The resize listener: the new window size. */
    method Resize(newWidth: real, newHeight: real)
      requires Valid()
      modifies this`width, this`height
      ensures Valid() && width == newWidth && height == newHeight
    {
      width, height := newWidth, newHeight;
    }

    /** The admission effect arms its timer: there are texts, the window has a width and a slot is free. */
    predicate CanAdmit()
      reads this
    {
      messages != [] && width != 0.0 && |active| < maxConcurrent
    }

    /** The admission timer fires: with a slot free, the next text in cyclic
        order is appended as a bubble with the given id, placed by the search
        and timed by its length, and the index moves on by one. Otherwise
        nothing changes. */
    method Admit(id: string, rnd: nat -> real) returns (admitted: Option<Bubble>)
      requires Valid()
      modifies this`active, this`messageIndex
      ensures Valid()
      ensures admitted.Some? <==> old(CanAdmit())
      ensures admitted.None? ==> active == old(active) && messageIndex == old(messageIndex)
      ensures admitted.Some? ==>
        var b := admitted.value;
        && active == old(active) + [b]
        && b.id == id
        && b.text == messages[old(messageIndex)]
        && b.duration == CalculateDuration(b.text)
        && FirstFit(Layout(width, height, BubbleWidth, EstimateMessageHeight(b.text, BubbleWidth)),
                    rnd, MaxAttempts, old(active), Position(b.x, b.y))
        && messageIndex == (old(messageIndex) + 1) % |messages|
    {
      if messages == [] || width == 0.0 {
        return None;
      }
      if |active| >= maxConcurrent {
        return None;
      }
      var text := messages[messageIndex];
      var position := GetRandomPosition(width, height, text, active, BubbleWidth, MaxAttempts, rnd);
      var duration := CalculateDuration(text);
      var newMessage := Bubble(id, text, position.x, position.y, duration);
      messageIndex := (messageIndex + 1) % |messages|;
      active := active + [newMessage];
      return Some(newMessage);
    }

    /** `handleMessageComplete`: every bubble with this id leaves the screen. */
    method Complete(id: string)
      requires Valid()
      modifies this`active
      ensures Valid()
      ensures active == RemoveId(old(active), id)
    {
      active := RemoveId(active, id);
    }
  }
}
