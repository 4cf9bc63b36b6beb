/** The Quick Quiz tab of app.py: the quiz held in the session (items, score,
    total), the "Create quiz" button that replaces it, and the "Check" button
    of each item. The items come from the language model's JSON; here they are
    a parameter, already parsed, and a reply that failed to parse is the empty
    list the source falls back to. */
module Quiz {
  import opened Results
  import opened PyStr

  /** A JSON member as `dict.get` finds it: missing, `null`, or a string. */
  datatype Member = Missing | Null | Str(text: string)

  /** One item of the quiz: `type`, `options` and `answer` as parsed. */
  datatype QuizItem = QuizItem(kind: Member, options: seq<string>, answer: Member)

  /** What the student gives for an item: the radio choice of a multiple-choice
      item (none when it has no options), or the text typed for a gap. */
  datatype Reply = Picked(choice: Option<string>) | Typed(text: string)

  /** The result of pressing "Check": right, wrong, or the AttributeError of
      `None.strip()` that ends the run before the score is touched. */
  datatype Verdict = Correct | Wrong | Crashed

  /** `it.get("type") == "mcq"`; every other item is shown as a gap to fill. */
  predicate IsMcq(item: QuizItem) {
    item.kind == Str("mcq")
  }

  /** The reply the widgets can produce for an item: `st.radio` returns one of
      the options, or None when there are none; `st.text_input` returns text. */
  predicate Fits(item: QuizItem, reply: Reply) {
    if IsMcq(item) then
      reply.Picked? && (if item.options == [] then reply.choice.None? else reply.choice.Some? && reply.choice.value in item.options)
    else reply.Typed?
  }

  /** `it.get("answer")` compared with a choice: a missing or null answer is None. */
  function Expected(item: QuizItem): Option<string> {
    match item.answer
    case Str(a) => Some(a)
    case _ => None
  }

  /** `.strip().lower()`, the normal form both sides of a gap are compared in. */
  function Normalize(s: string): (r: string)
    ensures r == [] <==> Blank(s)
    ensures r == [] || (!IsSpace(r[0]) && !IsSpace(r[|r| - 1]))
    ensures forall i :: 0 <= i < |r| ==> !IsAsciiUpper(r[i])
  {
    Lower(Strip(s))
  }

  /** The verdict of "Check" for item `item` with reply `reply`; it crashes
      exactly for a gap whose answer is null. */
  function Judge(item: QuizItem, reply: Reply): (v: Verdict)
    requires Fits(item, reply)
    ensures v.Crashed? <==> !IsMcq(item) && item.answer.Null?
  {
    if IsMcq(item) then
      if reply.choice == Expected(item) then Correct else Wrong
    else
      match item.answer
      case Null => Crashed
      case Missing => if Normalize(reply.text) == Normalize("") then Correct else Wrong
      case Str(a) => if Normalize(reply.text) == Normalize(a) then Correct else Wrong
  }

  /** A multiple-choice item is right exactly when the choice is the answer;
      it never crashes. */
  lemma McqJudge(item: QuizItem, choice: Option<string>)
    requires IsMcq(item) && Fits(item, Picked(choice))
    ensures Judge(item, Picked(choice)) != Crashed
    ensures Judge(item, Picked(choice)) == Correct
        <==> (item.answer.Str? && choice == Some(item.answer.text)) || (!item.answer.Str? && item.options == [])
  {
  }

  /** A multiple-choice item with an answer that is not among its options can
      never be answered right. */
  lemma UnreachableAnswer(item: QuizItem, choice: Option<string>)
    requires IsMcq(item) && Fits(item, Picked(choice))
    requires item.answer.Str? && item.answer.text !in item.options
    ensures Judge(item, Picked(choice)) == Wrong
  {
  }

  /** A gap is marked ignoring whitespace around the typed text and the case
      of its ASCII letters. */
  lemma GapIgnoresPaddingAndCase(item: QuizItem, s: string, p: string, q: string)
    requires !IsMcq(item) && Blank(p) && Blank(q)
    ensures Judge(item, Typed(p + Upper(s) + q)) == Judge(item, Typed(s))
  {
    NormalizePaddedUpper(s, p, q);
  }

  /** Padding and upper-casing vanish in the normal form. */
  lemma NormalizePaddedUpper(s: string, p: string, q: string)
    requires Blank(p) && Blank(q)
    ensures Normalize(p + Upper(s) + q) == Normalize(s)
  {
    StripPadded(p, Upper(s), q);
    StripUpper(s);
    LowerOfUpper(Strip(s));
  }

  /** The stored answer, typed in capitals and padded, is accepted. */
  lemma GapAcceptsAnswer(item: QuizItem, p: string, q: string)
    requires !IsMcq(item) && item.answer.Str? && Blank(p) && Blank(q)
    ensures Judge(item, Typed(p + Upper(item.answer.text) + q)) == Correct
  {
    GapIgnoresPaddingAndCase(item, item.answer.text, p, q);
  }

  /** A gap with a stored answer rejects every reply whose `.strip().lower()`
      differs from the answer's. */
  lemma GapRejectsOther(item: QuizItem, typed: string)
    requires !IsMcq(item) && item.answer.Str?
    requires Normalize(typed) != Normalize(item.answer.text)
    ensures Judge(item, Typed(typed)) == Wrong
  {
  }

  /** A gap without an answer accepts exactly the blank replies; one whose
      answer is null crashes whatever is typed. */
  lemma GapWithoutAnswer(item: QuizItem, typed: string)
    requires !IsMcq(item)
    ensures item.answer == Missing ==> (Judge(item, Typed(typed)) == Correct <==> Blank(typed))
    ensures item.answer == Null ==> Judge(item, Typed(typed)) == Crashed
  {
    assert Strip("") == "";
  }

  /** The quiz of the session, updated in place by the buttons of the tab. */
  class QuizSession {
    var items: seq<QuizItem>
    var score: int
    var total: int

    /** The total is the number of items and the score is not negative. */
    predicate Valid()
      reads this
    {
      total == |items| && score >= 0
    }

    /** The first visit: no items, score 0 of 0. */
    constructor ()
      ensures items == [] && score == 0 && total == 0
      ensures Valid()
    {
      items := [];
      score := 0;
      total := 0;
    }

    /** "Create quiz" with `target` in the input box and `parsed` the items of
        the model's reply: nothing happens for a blank target; otherwise the
        items are replaced and the score restarts at 0 of their number. */
    method Create(target: string, parsed: seq<QuizItem>)
      requires Valid()
      modifies this
      ensures Blank(target) ==> items == old(items) && score == old(score) && total == old(total)
      ensures !Blank(target) ==> items == parsed && score == 0 && total == |parsed|
      ensures Valid()
    {
      if Strip(target) != [] {
        items := parsed;
        score := 0;
        total := |items|;
      }
    }

    /** "Check" on item `i`: the verdict of the reply, one point more when it
        is right, and nothing else changes. */
    method Check(i: nat, reply: Reply) returns (verdict: Verdict)
      requires Valid() && i < |items| && Fits(items[i], reply)
      modifies this
      ensures verdict == Judge(old(items[i]), reply)
      ensures items == old(items) && total == old(total)
      ensures score == old(score) + (if verdict == Correct then 1 else 0)
      ensures Valid()
    {
      var item := items[i];
      if IsMcq(item) {
        verdict := if reply.choice == Expected(item) then Correct else Wrong;
      } else if item.answer.Null? {
        verdict := Crashed;
      } else {
        var answer := if item.answer.Str? then item.answer.text else "";
        var correct := Normalize(answer);
        verdict := if Normalize(reply.text) == correct then Correct else Wrong;
      }
      assert verdict == Judge(item, reply);
      if verdict == Correct {
        score := score + 1;
      }
    }
  }

  /** Checking the same right answer twice counts it twice: one item, score 2
      of 1. */
  method RepeatedCheckOvercounts() returns (score: int, total: int)
    ensures score == 2 && total == 1 && score > total
  {
    var gap := QuizItem(Str("fitb"), [], Str("take into account"));
    var quiz := new QuizSession();
    assert !IsSpace("take into account"[0]);
    quiz.Create("take into account", [gap]);
    assert !IsMcq(gap);
    var first := quiz.Check(0, Typed("take into account"));
    var second := quiz.Check(0, Typed("take into account"));
    score, total := quiz.score, quiz.total;
  }

  /** A set of item positions below `n` has at most `n` members. */
  lemma {:induction false} PositionsBound(solved: set<nat>, n: nat)
    requires forall k :: k in solved ==> k < n
    ensures |solved| <= n
  {
    if n > 0 {
      var below := solved - {n - 1};
      PositionsBound(below, n - 1);
      assert solved <= below + {n - 1};
    } else {
      assert solved == {};
    }
  }

  /** The quiz with the score counted once per item answered right. */
  class FairQuizSession {
    var items: seq<QuizItem>
    var solved: set<nat>
    var total: int

    predicate Valid()
      reads this
    {
      total == |items| && forall k :: k in solved ==> k < |items|
    }

    /** The score shown: the number of items answered right so far. */
    function Score(): (s: nat)
      reads this
      requires Valid()
      ensures s <= total
    {
      PositionsBound(solved, |items|);
      |solved|
    }

    constructor ()
      ensures items == [] && solved == {} && total == 0
      ensures Valid()
    {
      items := [];
      solved := {};
      total := 0;
    }

    method Create(target: string, parsed: seq<QuizItem>)
      requires Valid()
      modifies this
      ensures Blank(target) ==> items == old(items) && solved == old(solved) && total == old(total)
      ensures !Blank(target) ==> items == parsed && solved == {} && total == |parsed|
      ensures Valid()
    {
      if Strip(target) != [] {
        items := parsed;
        solved := {};
        total := |items|;
      }
    }

    /** "Check" on item `i`: the same verdict, and the item counts as solved
        once it has been answered right. */
    method Check(i: nat, reply: Reply) returns (verdict: Verdict)
      requires Valid() && i < |items| && Fits(items[i], reply)
      modifies this
      ensures verdict == Judge(old(items[i]), reply)
      ensures items == old(items) && total == old(total)
      ensures solved == old(solved) + (if verdict == Correct then {i} else {})
      ensures Valid()
    {
      verdict := Judge(items[i], reply);
      if verdict == Correct {
        solved := solved + {i};
      }
    }
  }

  /** With the fair score, checking the same right answer twice leaves 1 of 1. */
  method RepeatedCheckCountsOnce() returns (score: int, total: int)
    ensures score == 1 && total == 1 && score <= total
  {
    var gap := QuizItem(Str("fitb"), [], Str("take into account"));
    var quiz := new FairQuizSession();
    assert !IsSpace("take into account"[0]);
    quiz.Create("take into account", [gap]);
    assert !IsMcq(gap);
    var first := quiz.Check(0, Typed("take into account"));
    var second := quiz.Check(0, Typed("take into account"));
    score, total := quiz.Score(), quiz.total;
  }
}
