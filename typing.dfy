/** The hero tagline's typing animation: a cursor over a fixed list of phrases
    that types the current phrase out one character per tick, pauses, deletes it
    one character per tick, and moves on to the next phrase, wrapping around. */
module Typing {

  /** The animator's closure state. `charIndex` is a JavaScript number, so it is
      an `int` here; `Invariant` keeps it inside the current phrase. */
  datatype Cursor = Cursor(phraseIndex: nat, charIndex: int, isDeleting: bool)

  /** What one call of the animator does: the state it leaves, the text it
      writes into the display, and the delay before it is called again. */
  datatype Tick = Tick(next: Cursor, text: string, delay: nat)

  /** Delay after a phrase has been typed out in full. */
  const PauseDelay: nat := 1500
  /** Delay between two deletions. */
  const DeleteDelay: nat := 80
  /** Delay between two typed characters. */
  const TypeDelay: nat := 120

  /** The phrases the page cycles through. */
  function TaglinePhrases(): (p: seq<string>)
    ensures WellFormed(p)
  {
    ["Quality Analyst", "Researcher & Scientist", "Molecular Biology Graduate"]
  }

  /** The animation needs at least one phrase, and no empty phrase. */
  predicate WellFormed(phrases: seq<string>)
  {
    |phrases| > 0 && forall i :: 0 <= i < |phrases| ==> |phrases[i]| > 0
  }

  /** The states the animator can be in between two ticks: a phrase of the
      list, and a character count that can still grow (when typing) or shrink
      (when deleting). */
  predicate Invariant(phrases: seq<string>, c: Cursor)
  {
    WellFormed(phrases) && c.phraseIndex < |phrases| &&
    if c.isDeleting then 1 <= c.charIndex <= |phrases[c.phraseIndex]|
    else 0 <= c.charIndex < |phrases[c.phraseIndex]|
  }

  function Clamp(x: int, n: nat): (r: nat)
    ensures r <= n
    ensures 0 <= x <= n ==> r == x
  {
    if x < 0 then 0 else if x > n then n else x
  }

  /** JavaScript's `String.prototype.substring`: both bounds are clamped to the
      string, and swapped when they are out of order. */
  function Substring(s: string, start: int, end: int): (r: string)
    ensures 0 <= start <= end <= |s| ==> r == s[start..end]
    ensures |r| <= |s|
    ensures 0 <= end <= start <= |s| ==> r == s[end..start]
    ensures end <= 0 && start <= 0 ==> r == ""
  {
    var a, b := Clamp(start, |s|), Clamp(end, |s|);
    if a <= b then s[a..b] else s[b..a]
  }

  /** One call of `type()`, from the closure state it finds. */
  function Step(phrases: seq<string>, c: Cursor): (t: Tick)
    requires WellFormed(phrases) && c.phraseIndex < |phrases|
    ensures t.next.phraseIndex < |phrases|
  {
    var phrase := phrases[c.phraseIndex];
    if !c.isDeleting then
      var text := Substring(phrase, 0, c.charIndex + 1);
      var k := c.charIndex + 1;
      if k == |phrase| then Tick(Cursor(c.phraseIndex, k, true), text, PauseDelay)
      else Tick(Cursor(c.phraseIndex, k, false), text, TypeDelay)
    else
      var text := Substring(phrase, 0, c.charIndex - 1);
      var k := c.charIndex - 1;
      if k == 0 then Tick(Cursor((c.phraseIndex + 1) % |phrases|, 0, false), text, TypeDelay)
      else Tick(Cursor(c.phraseIndex, k, true), text, DeleteDelay)
  }

  /** The closure state after `n` ticks. */
  function Run(phrases: seq<string>, c: Cursor, n: nat): (r: Cursor)
    requires WellFormed(phrases) && c.phraseIndex < |phrases|
    ensures r.phraseIndex < |phrases|
    decreases n
  {
    if n == 0 then c else Run(phrases, Step(phrases, c).next, n - 1)
  }

  /** Every tick keeps the state valid, and what it writes is exactly the first
      `charIndex` characters of the phrase it leaves current. */
  lemma StepShowsPrefix(phrases: seq<string>, c: Cursor)
    requires Invariant(phrases, c)
    ensures Invariant(phrases, Step(phrases, c).next)
    ensures var t := Step(phrases, c);
      t.text == phrases[t.next.phraseIndex][..t.next.charIndex]
  {
  }

  /** Typing grows the display by one character and deleting shrinks it by one. */
  lemma StepMovesOneCharacter(phrases: seq<string>, c: Cursor)
    requires Invariant(phrases, c)
    ensures var t := Step(phrases, c);
      |t.text| == if c.isDeleting then c.charIndex - 1 else c.charIndex + 1
  {
  }

  /** The direction flips exactly at full length (with the long pause) and at
      zero; otherwise the delay is that of the direction the animator is in. */
  lemma StepDirectionAndDelay(phrases: seq<string>, c: Cursor)
    requires Invariant(phrases, c)
    ensures var t := Step(phrases, c);
      (t.delay == PauseDelay <==> !c.isDeleting && t.next.isDeleting) &&
      (!c.isDeleting && t.next.isDeleting <==>
         !c.isDeleting && t.next.charIndex == |phrases[c.phraseIndex]|) &&
      (c.isDeleting && !t.next.isDeleting <==> c.isDeleting && t.next.charIndex == 0) &&
      (t.delay != PauseDelay ==> t.delay == if t.next.isDeleting then DeleteDelay else TypeDelay)
  {
  }

  /** Only the tick that deletes the last character moves to the next phrase,
      wrapping from the last phrase to the first; the display is then empty. */
  lemma StepAdvancesPhrase(phrases: seq<string>, c: Cursor)
    requires Invariant(phrases, c)
    ensures var t := Step(phrases, c);
      t.next.phraseIndex ==
        if c.isDeleting && c.charIndex == 1 then (c.phraseIndex + 1) % |phrases| else c.phraseIndex
    ensures c.isDeleting && c.charIndex == 1 ==> Step(phrases, c).text == ""
    ensures c.isDeleting && c.charIndex == 1 && c.phraseIndex == |phrases| - 1 ==>
      Step(phrases, c).next.phraseIndex == 0
  {
  }

  /** Running `a` ticks and then `b` more is running `a + b` ticks. */
  lemma {:induction false} RunAdd(phrases: seq<string>, c: Cursor, a: nat, b: nat)
    requires WellFormed(phrases) && c.phraseIndex < |phrases|
    ensures Run(phrases, c, a + b) == Run(phrases, Run(phrases, c, a), b)
    decreases a
  {
    if a > 0 {
      RunAdd(phrases, Step(phrases, c).next, a - 1, b);
    }
  }

  /** Ticks never leave the valid states. */
  lemma {:induction false} RunKeepsValid(phrases: seq<string>, c: Cursor, n: nat)
    requires Invariant(phrases, c)
    ensures Invariant(phrases, Run(phrases, c, n))
    decreases n
  {
    if n > 0 {
      StepShowsPrefix(phrases, c);
      RunKeepsValid(phrases, Step(phrases, c).next, n - 1);
    }
  }

  /** Typing from `k` characters reaches the full phrase, and the deleting
      direction, after `|phrase| - k` ticks. */
  lemma {:induction false} TypeOut(phrases: seq<string>, i: nat, k: int)
    requires WellFormed(phrases) && i < |phrases|
    requires 0 <= k < |phrases[i]|
    ensures Run(phrases, Cursor(i, k, false), |phrases[i]| - k) == Cursor(i, |phrases[i]|, true)
    decreases |phrases[i]| - k
  {
    if k + 1 < |phrases[i]| {
      TypeOut(phrases, i, k + 1);
    }
  }

  /** Deleting from `k` characters empties the display after `k` ticks and
      leaves the animator typing the next phrase from scratch. */
  lemma {:induction false} DeleteAll(phrases: seq<string>, i: nat, k: int)
    requires WellFormed(phrases) && i < |phrases|
    requires 1 <= k <= |phrases[i]|
    ensures Run(phrases, Cursor(i, k, true), k) == Cursor((i + 1) % |phrases|, 0, false)
    decreases k
  {
    if k > 1 {
      DeleteAll(phrases, i, k - 1);
    }
  }

  /** A whole cycle on phrase `i` takes exactly twice its length in ticks and
      ends at the start of the next phrase (the first one after the last). */
  lemma FullCycle(phrases: seq<string>, i: nat)
    requires WellFormed(phrases) && i < |phrases|
    ensures Run(phrases, Cursor(i, 0, false), 2 * |phrases[i]|) ==
      Cursor((i + 1) % |phrases|, 0, false)
  {
    var n := |phrases[i]|;
    RunAdd(phrases, Cursor(i, 0, false), n, n);
    TypeOut(phrases, i, 0);
    DeleteAll(phrases, i, n);
  }

  /** On the page's own phrases, the cycle on the last phrase (26 characters)
      takes 52 ticks and wraps around to the first phrase. */
  lemma TaglineWraps()
    ensures Run(TaglinePhrases(), Cursor(2, 0, false), 52) == Cursor(0, 0, false)
  {
    assert |TaglinePhrases()[2]| == 26;
    FullCycle(TaglinePhrases(), 2);
  }

  /** The animator's closure: the phrase list, its three state variables and the
      text of the display element. */
  class Typewriter {
    const phrases: seq<string>
    var phraseIndex: nat
    var charIndex: int
    var isDeleting: bool
    var text: string

    function State(): Cursor
      reads this
    {
      Cursor(phraseIndex, charIndex, isDeleting)
    }

    ghost predicate Valid()
      reads this
    {
      Invariant(phrases, State())
    }

    /** The closure as the page sets it up: first phrase, nothing typed yet,
        typing forward; the display keeps whatever the page put there. */
    constructor (phrases: seq<string>, shown: string)
      requires WellFormed(phrases)
      ensures Valid()
      ensures this.phrases == phrases && State() == Cursor(0, 0, false) && text == shown
    {
      this.phrases := phrases;
      phraseIndex, charIndex, isDeleting := 0, 0, false;
      text := shown;
    }

    /** One call of `type()`: writes a prefix of the current phrase into the
        display, moves the cursor and returns the delay before the next call. */
    method Type() returns (delay: nat)
      requires Valid()
      modifies this
      ensures Valid()
      ensures State() == Step(phrases, old(State())).next
      ensures text == Step(phrases, old(State())).text
      ensures delay == Step(phrases, old(State())).delay
      ensures text == phrases[phraseIndex][..charIndex]
    {
      ghost var before := State();
      StepShowsPrefix(phrases, before);
      var currentPhrase := phrases[phraseIndex];
      if !isDeleting {
        text := Substring(currentPhrase, 0, charIndex + 1);
        charIndex := charIndex + 1;
        if charIndex == |currentPhrase| {
          isDeleting := true;
          return PauseDelay;
        }
      } else {
        text := Substring(currentPhrase, 0, charIndex - 1);
        charIndex := charIndex - 1;
        if charIndex == 0 {
          isDeleting := false;
          phraseIndex := (phraseIndex + 1) % |phrases|;
        }
      }
      delay := if isDeleting then DeleteDelay else TypeDelay;
    }
  }
}
