/** Which hints the game page shows and how each one is coloured and
    labelled, as a pure function of the hint list and the game state. */
module HintDisplay {
  import opened Wrappers
  import opened SupabaseRecords
  import opened LocalStorage

  /** Background and text colour classes of one hint panel. */
  datatype Style = Style(background: string, textColor: string)

  /** One hint as displayed: its text and its style. */
  datatype RenderedHint = RenderedHint(text: string, style: Style)

  const CorrectStyle := Style("bg-[#407763]", "text-white")
  const PartialStyle := Style("bg-[#f6d656]", "text-black")
  const IncorrectStyle := Style("bg-[#9e4a4a]", "text-white")
  const PendingStyle := Style("bg-[#6b89b8] bg-opacity-60", "text-white")

  function Min(a: int, b: int): int
  {
    if a <= b then a else b
  }

  /** End index taken by JavaScript's `slice(0, end)` on a list of length
      `len`: a negative end counts back from the end, and the result is
      clamped to the list. */
  function SliceEnd(len: nat, end: int): (e: nat)
    ensures e <= len
    ensures end >= 0 ==> e == Min(end, len)
    ensures end < 0 ==> e == (if len + end > 0 then len + end else 0)
  {
    if end < 0 then (if len + end > 0 then len + end else 0)
    else if end < len then end
    else len
  }

  /** The hints on screen: none before the game state is known, otherwise
      the first `revealedHints` of them, in order. */
  function VisibleHints(hints: seq<Hint>, state: Option<GameState>): (v: seq<Hint>)
    ensures |v| <= |hints| && v == hints[..|v|]
    ensures state.None? ==> v == []
    ensures state.Some? && state.value.revealedHints >= 0 ==>
              |v| == Min(state.value.revealedHints, |hints|)
  {
    match state
    case None => []
    case Some(s) => hints[..SliceEnd(|hints|, s.revealedHints)]
  }

  /** The verdict of the guess made after the hint at `index` was revealed,
      if that guess exists. */
  function NextGuessResult(s: GameState, index: nat): (r: Option<GuessResult>)
    ensures r.Some? <==> index + 1 < |s.guessResults|
    ensures r.Some? ==> r.value == s.guessResults[index + 1]
  {
    if index + 1 < |s.guessResults| then Some(s.guessResults[index + 1]) else None
  }

  /** Colour of a hint panel for the verdict that follows it. */
  function StyleFor(next: Option<GuessResult>): (st: Style)
    ensures st.textColor == (if next == Some(Partial) then "text-black" else "text-white")
    ensures next.None? <==> st == PendingStyle
  {
    match next
    case Some(Correct) => CorrectStyle
    case Some(Partial) => PartialStyle
    case Some(Incorrect) => IncorrectStyle
    case None => PendingStyle
  }

  /** JavaScript truthiness of an optional string: present and non-empty. */
  predicate Truthy(o: Option<string>)
  {
    o.Some? && o.value != ""
  }

  function DigitChar(d: nat): (c: char)
    requires d < 10
    ensures '0' <= c <= '9' && c as int - '0' as int == d
  {
    ('0' as int + d) as char
  }

  /** Decimal notation of a natural number, as JavaScript prints it. */
  function NatToString(n: nat): (s: string)
    ensures s != []
    ensures forall i :: 0 <= i < |s| ==> '0' <= s[i] <= '9'
    ensures |s| == 1 <==> n < 10
    ensures s[0] == '0' <==> n == 0
    ensures |s| > 1 ==> s[0] != '0'
  {
    if n < 10 then [DigitChar(n)] else NatToString(n / 10) + [DigitChar(n % 10)]
  }

  /** Value of a string of decimal digits. */
  function DigitsValue(s: string): nat
    requires forall i :: 0 <= i < |s| ==> '0' <= s[i] <= '9'
  {
    if s == [] then 0
    else DigitsValue(s[..|s| - 1]) * 10 + (s[|s| - 1] as int - '0' as int)
  }

  /** Reading the printed number gives the number back. */
  lemma {:induction false} NatToStringValue(n: nat)
    ensures DigitsValue(NatToString(n)) == n
  {
    if n >= 10 {
      var s := NatToString(n);
      assert s[..|s| - 1] == NatToString(n / 10);
      NatToStringValue(n / 10);
    }
  }

  /** Different numbers print differently. */
  lemma NatToStringInjective(m: nat, n: nat)
    requires NatToString(m) == NatToString(n)
    ensures m == n
  {
    NatToStringValue(m);
    NatToStringValue(n);
  }

  /** Text of the hint at `index`: its text, else its image caption, else a
      numbered placeholder counting from 1. */
  function DisplayText(h: Hint, index: nat): (t: string)
    ensures t != []
    ensures Truthy(h.hintText) ==> t == h.hintText.value
    ensures !Truthy(h.hintText) && Truthy(h.imageCaption) ==> t == h.imageCaption.value
    ensures !Truthy(h.hintText) && !Truthy(h.imageCaption) ==>
              t == "Hint " + NatToString(index + 1)
  {
    if Truthy(h.hintText) then h.hintText.value
    else if Truthy(h.imageCaption) then h.imageCaption.value
    else "Hint " + NatToString(index + 1)
  }

  /** The hint panels of the game page, in order. */
  function RenderHints(hints: seq<Hint>, state: Option<GameState>): (r: seq<RenderedHint>)
    ensures |r| == |VisibleHints(hints, state)|
    ensures |r| > 0 ==> state.Some?
    ensures forall i :: 0 <= i < |r| ==> r[i].text == DisplayText(hints[i], i)
    ensures forall i :: 0 <= i < |r| ==> r[i].style == StyleFor(NextGuessResult(state.value, i))
  {
    var v := VisibleHints(hints, state);
    if v == [] then []
    else
      seq(|v|, i requires 0 <= i < |v| =>
        RenderedHint(DisplayText(v[i], i), StyleFor(NextGuessResult(state.value, i))))
  }

  // ---------------------------------------------------------------------
  // Properties of the rule

  /** Before any game state is reported nothing is shown. */
  lemma NoStateNoHints(hints: seq<Hint>)
    ensures RenderHints(hints, None) == []
  {
  }

  /** With a non-negative reveal count, exactly the first
      min(revealedHints, |hints|) hints are shown. */
  lemma RenderedCount(hints: seq<Hint>, s: GameState)
    requires s.revealedHints >= 0
    ensures |RenderHints(hints, Some(s))| == Min(s.revealedHints, |hints|)
  {
  }

  /** A negative reveal count drops that many hints from the end, as
      `slice` does. */
  lemma NegativeRevealCount(hints: seq<Hint>, s: GameState)
    requires s.revealedHints < 0
    ensures |RenderHints(hints, Some(s))| == (if |hints| + s.revealedHints > 0 then |hints| + s.revealedHints else 0)
  {
  }

  /** The colour mapping: green for a correct next guess, yellow with black
      text for a partial one, red for an incorrect one, blue while the next
      guess has not been made. */
  lemma StyleMapping()
    ensures StyleFor(Some(Correct)) == Style("bg-[#407763]", "text-white")
    ensures StyleFor(Some(Partial)) == Style("bg-[#f6d656]", "text-black")
    ensures StyleFor(Some(Incorrect)) == Style("bg-[#9e4a4a]", "text-white")
    ensures StyleFor(None) == Style("bg-[#6b89b8] bg-opacity-60", "text-white")
  {
  }

  /** The colour tells the verdict apart: different verdicts (or a missing
      one) never share a style. */
  lemma StyleForInjective(a: Option<GuessResult>, b: Option<GuessResult>)
    requires StyleFor(a) == StyleFor(b)
    ensures a == b
  {
  }

  /** The hint at visible index `i` takes its colour from the verdict at
      index i + 1, and stays blue while that guess does not exist. */
  lemma HintStyledByNextGuess(hints: seq<Hint>, s: GameState, i: nat)
    requires i < |RenderHints(hints, Some(s))|
    ensures i + 1 < |s.guessResults| ==>
              RenderHints(hints, Some(s))[i].style == StyleFor(Some(s.guessResults[i + 1]))
    ensures i + 1 >= |s.guessResults| ==> RenderHints(hints, Some(s))[i].style == PendingStyle
  {
  }

  /** The verdict of the first guess never colours any hint. */
  lemma FirstVerdictNeverShown(hints: seq<Hint>, s: GameState, v: GuessResult)
    requires |s.guessResults| > 0
    ensures RenderHints(hints, Some(s.(guessResults := [v] + s.guessResults[1..])))
         == RenderHints(hints, Some(s))
  {
    var s' := s.(guessResults := [v] + s.guessResults[1..]);
    var r, r' := RenderHints(hints, Some(s)), RenderHints(hints, Some(s'));
    forall i | 0 <= i < |r|
      ensures r'[i] == r[i]
    {
      assert NextGuessResult(s', i) == NextGuessResult(s, i);
    }
  }

  /** While no more verdicts exist than hints are revealed, the newest shown
      hint is always blue. */
  lemma NewestHintPending(hints: seq<Hint>, s: GameState)
    requires 0 < s.revealedHints <= |hints|
    requires |s.guessResults| <= s.revealedHints
    ensures RenderHints(hints, Some(s))[s.revealedHints - 1].style == PendingStyle
  {
  }

  /** Text-less hints get distinct placeholders "Hint 1", "Hint 2", ... */
  lemma PlaceholdersDistinct(h1: Hint, h2: Hint, i: nat, j: nat)
    requires !Truthy(h1.hintText) && !Truthy(h1.imageCaption)
    requires !Truthy(h2.hintText) && !Truthy(h2.imageCaption)
    requires i != j
    ensures DisplayText(h1, i) != DisplayText(h2, j)
  {
    var t1, t2 := DisplayText(h1, i), DisplayText(h2, j);
    if t1 == t2 {
      assert t1[5..] == NatToString(i + 1);
      assert t2[5..] == NatToString(j + 1);
      NatToStringInjective(i + 1, j + 1);
    }
  }
}
