/**
 * The two interactive prompts of the merger (bib-merger.py:141-182). The operator's
 * typed lines are a sequence `answers`, consumed from position `pos` on; `input()` past
 * its end raises `EOFError`. Each prompt loops until it reads an answer it accepts and
 * returns, with its choice, the position of the next unread answer.
 */
module Prompts {
  import opened Outcomes
  import opened Text

  /** `1 <= int(a) <= count` */
  predicate InRange(a: string, count: nat) {
    var c := ParseInt(a);
    c.Some? && 1 <= c.value <= count
  }

  /** An answer the same-key prompt rejects: not blank, and not a number in range. */
  predicate RejectedForSameKey(a: string, count: nat) {
    Strip(a) != "" && !InRange(a, count)
  }

  /**
   * What `get_user_choice_for_same_key` makes of the answers from `pos` on, with `count`
   * entries on offer: `None` to keep them all, or the 0-based position of the entry to
   * keep, together with the position after the answer that decided.
   */
  function SameKeyAnswer(answers: seq<string>, pos: nat, count: nat): (r: Result<(Option<nat>, nat)>)
    requires pos <= |answers|
    ensures r.Ok? ==> pos < r.value.1 <= |answers|
    ensures r.Ok? && r.value.0.Some? ==> r.value.0.value < count
    decreases |answers| - pos
  {
    if pos == |answers| then Err(EOFError)
    else if Strip(answers[pos]) == "" then Ok((None, pos + 1))
    else if InRange(answers[pos], count) then Ok((Some(ParseInt(answers[pos]).value - 1), pos + 1))
    else SameKeyAnswer(answers, pos + 1, count)
  }

  /** The same-key prompt fails only past the last answer, with every answer rejected. */
  lemma {:induction false} SameKeyAnswerEof(answers: seq<string>, pos: nat, count: nat)
    requires pos <= |answers|
    ensures var r := SameKeyAnswer(answers, pos, count);
      && (r.Err? ==> r.error == EOFError)
      && (r.Err? ==> forall i | pos <= i < |answers| :: RejectedForSameKey(answers[i], count))
    decreases |answers| - pos
  {
    if pos < |answers| && RejectedForSameKey(answers[pos], count) {
      SameKeyAnswerEof(answers, pos + 1, count);
    }
  }

  /** Every answer the same-key prompt reads before the deciding one was rejected. */
  lemma {:induction false} SameKeyAnswerSkips(answers: seq<string>, pos: nat, count: nat)
    requires pos <= |answers|
    ensures var r := SameKeyAnswer(answers, pos, count);
      r.Ok? ==> forall i | pos <= i < r.value.1 - 1 :: RejectedForSameKey(answers[i], count)
    decreases |answers| - pos
  {
    if pos < |answers| && RejectedForSameKey(answers[pos], count) {
      SameKeyAnswerSkips(answers, pos + 1, count);
    }
  }

  /**
   * The deciding answer of the same-key prompt is blank (keep all entries) or the
   * 1-based number of the entry to keep.
   */
  lemma {:induction false} SameKeyAnswerDecides(answers: seq<string>, pos: nat, count: nat)
    requires pos <= |answers|
    ensures var r := SameKeyAnswer(answers, pos, count);
      r.Ok? ==>
        && (r.value.0.None? <==> Strip(answers[r.value.1 - 1]) == "")
        && (r.value.0.Some? ==> ParseInt(answers[r.value.1 - 1]) == Some(r.value.0.value + 1))
    decreases |answers| - pos
  {
    if pos < |answers| && RejectedForSameKey(answers[pos], count) {
      SameKeyAnswerDecides(answers, pos + 1, count);
    }
  }

  /**
   * `get_user_choice_for_same_key` (lines 162-182): the entry to keep, or `None` to keep
   * all of them, and the position of the next unread answer.
   */
  method GetUserChoiceForSameKey<T>(answers: seq<string>, pos: nat, entries: seq<T>)
    returns (r: Result<(Option<T>, nat)>)
    requires pos <= |answers|
    ensures var a := SameKeyAnswer(answers, pos, |entries|);
      match a
      case Err(e) => r == Err(e)
      case Ok((choice, next)) =>
        r == Ok((if choice.Some? then Some(entries[choice.value]) else None, next))
  {
    var i := pos;
    while i < |answers|
      invariant pos <= i <= |answers|
      invariant SameKeyAnswer(answers, pos, |entries|) == SameKeyAnswer(answers, i, |entries|)
    {
      var choice := answers[i];
      if Strip(choice) == "" {
        return Ok((None, i + 1));
      }
      var c := ParseInt(choice);
      if c.Some? && 1 <= c.value <= |entries| {
        return Ok((Some(entries[c.value - 1]), i + 1));
      }
      i := i + 1;
    }
    return Err(EOFError);
  }

  /** `choice.lower() == 'q'`: the answer is the single letter q, in either case. */
  predicate IsQuit(a: string) {
    |a| == 1 && LowerChar(a[0]) == 'q'
  }

  lemma IsQuitLower(a: string)
    ensures IsQuit(a) <==> Lower(a) == "q"
  {
    if |a| == 1 {
      assert Lower(a)[0] == LowerChar(a[0]);
    }
  }

  /** An answer the title prompt rejects: not `q`, and not a number in range. */
  predicate RejectedForTitle(a: string, count: nat) {
    !IsQuit(a) && !InRange(a, count)
  }

  /**
   * What `get_user_choice` makes of the answers from `pos` on, with `count` keys on
   * offer: the 0-based position of the chosen key and the position after the answer
   * that decided, or `Quit` when the operator typed `q`.
   */
  function TitleAnswer(answers: seq<string>, pos: nat, count: nat): (r: Result<(nat, nat)>)
    requires pos <= |answers|
    ensures r.Ok? ==> pos < r.value.1 <= |answers| && r.value.0 < count
    decreases |answers| - pos
  {
    if pos == |answers| then Err(EOFError)
    else if IsQuit(answers[pos]) then Err(Quit)
    else if InRange(answers[pos], count) then Ok((ParseInt(answers[pos]).value - 1, pos + 1))
    else TitleAnswer(answers, pos + 1, count)
  }

  /** Past the last answer, with every answer rejected, the title prompt fails with `EOFError`. */
  lemma {:induction false} TitleAnswerEof(answers: seq<string>, pos: nat, count: nat)
    requires pos <= |answers|
    ensures var r := TitleAnswer(answers, pos, count);
      && (r.Err? ==> r.error == EOFError || r.error == Quit)
      && (r == Err(EOFError) ==> forall i | pos <= i < |answers| :: RejectedForTitle(answers[i], count))
    decreases |answers| - pos
  {
    if pos < |answers| && RejectedForTitle(answers[pos], count) {
      TitleAnswerEof(answers, pos + 1, count);
    }
  }

  /** The title prompt quits at a `q` that follows only rejected answers. */
  lemma {:induction false} TitleAnswerQuit(answers: seq<string>, pos: nat, count: nat)
    requires pos <= |answers|
    ensures TitleAnswer(answers, pos, count) == Err(Quit) ==> exists q | pos <= q < |answers| ::
      && IsQuit(answers[q])
      && forall i | pos <= i < q :: RejectedForTitle(answers[i], count)
    decreases |answers| - pos
  {
    if pos < |answers| && RejectedForTitle(answers[pos], count) {
      TitleAnswerQuit(answers, pos + 1, count);
    }
  }

  /**
   * The title prompt chooses the key numbered by the first answer it accepts; every
   * answer before that one was rejected.
   */
  lemma {:induction false} TitleAnswerChoice(answers: seq<string>, pos: nat, count: nat)
    requires pos <= |answers|
    ensures var r := TitleAnswer(answers, pos, count);
      r.Ok? ==>
        && (forall i | pos <= i < r.value.1 - 1 :: RejectedForTitle(answers[i], count))
        && !IsQuit(answers[r.value.1 - 1])
        && ParseInt(answers[r.value.1 - 1]) == Some(r.value.0 + 1)
    decreases |answers| - pos
  {
    if pos < |answers| && RejectedForTitle(answers[pos], count) {
      TitleAnswerChoice(answers, pos + 1, count);
    }
  }

  /**
   * `get_user_choice` (lines 141-160): the chosen key and the position of the next
   * unread answer; `Quit` stands for `sys.exit(1)`.
   */
  method GetUserChoice(answers: seq<string>, pos: nat, keys: seq<string>) returns (r: Result<(string, nat)>)
    requires pos <= |answers|
    ensures var a := TitleAnswer(answers, pos, |keys|);
      match a
      case Err(e) => r == Err(e)
      case Ok((choice, next)) => r == Ok((keys[choice], next))
  {
    var i := pos;
    while i < |answers|
      invariant pos <= i <= |answers|
      invariant TitleAnswer(answers, pos, |keys|) == TitleAnswer(answers, i, |keys|)
    {
      var choice := answers[i];
      IsQuitLower(choice);
      if Lower(choice) == "q" {
        return Err(Quit);
      }
      var c := ParseInt(choice);
      if c.Some? && 1 <= c.value <= |keys| {
        return Ok((keys[c.value - 1], i + 1));
      }
      i := i + 1;
    }
    return Err(EOFError);
  }
}
