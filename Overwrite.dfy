/**
 * The overwrite policy of create_file (main.cpp:646-662) and the answer
 * classification of program::ask_yesno (main.cpp:104-122), stated as
 * functions over the lines the user types.
 */
module Overwrite {
  import opened Common

  /** How ask_yesno reads one line of input. */
  datatype Answer = Yes | No | Invalid

  /** Only "y"/"yes" and "n"/"no", exactly as typed, are answers; anything else is asked again. */
  function Classify(s: string): (a: Answer)
  {
    if s == "y" || s == "yes" then Yes
    else if s == "n" || s == "no" then No
    else Invalid
  }

  /** The position of the first line that answers the question, or |input| when none does. */
  function FirstAnswer(input: seq<string>): (k: nat)
    ensures k <= |input|
    ensures forall j :: 0 <= j < k ==> Classify(input[j]) == Invalid
    ensures k < |input| ==> Classify(input[k]) != Invalid
  {
    if input == [] then 0
    else if Classify(input[0]) != Invalid then 0
    else 1 + FirstAnswer(input[1..])
  }

  /** ask_yesno's answer and the number of lines it read. */
  datatype Reply = Reply(yes: bool, consumed: nat)

  /**
   * ask_yesno on the lines still to be typed: the first yes or no decides;
   * when no line ever answers, the loop keeps asking and never returns (None).
   */
  function Ask(input: seq<string>): (r: Option<Reply>)
  {
    var k := FirstAnswer(input);
    if k == |input| then None else Some(Reply(Classify(input[k]) == Yes, k + 1))
  }

  /** What the overwrite check lets create_file do. */
  datatype Gate =
    | Proceed(latch: bool, consumed: nat)  // create the destination; the new mAlwaysOverwriteFiles
    | Refuse(consumed: nat)                // the user said no: create_file returns false
    | Waits                                // no answer ever comes

  /**
   * The check at main.cpp:646-662: with the latch set nothing is checked;
   * otherwise an existing destination is only overwritten after a yes, which
   * sets the latch for every later file.
   */
  function Check(latch: bool, present: bool, input: seq<string>): Gate
  {
    if latch then Proceed(true, 0)
    else if !present then Proceed(false, 0)
    else match Ask(input)
      case None => Waits
      case Some(reply) => if reply.yes then Proceed(true, reply.consumed) else Refuse(reply.consumed)
  }

  // ---------------------------------------------------------------------------
  // Answers

  /** The answers are case sensitive and must be typed without anything around them. */
  lemma {:induction false} ExactAnswers()
    ensures Classify("Y") == Invalid && Classify("YES") == Invalid && Classify("Yes") == Invalid
    ensures Classify("N") == Invalid && Classify("No") == Invalid
    ensures Classify("yes ") == Invalid && Classify("") == Invalid && Classify("ye") == Invalid
  {
  }

  /** ask_yesno's answer is the first line that is yes or no; every line before it was invalid. */
  lemma {:induction false} AskAnswersFirst(input: seq<string>)
    requires Ask(input).Some?
    ensures var k := Ask(input).value.consumed - 1;
            && 0 <= k < |input|
            && (forall j :: 0 <= j < k ==> Classify(input[j]) == Invalid)
            && (Ask(input).value.yes <==> input[k] == "y" || input[k] == "yes")
            && (!Ask(input).value.yes <==> input[k] == "n" || input[k] == "no")
  {
  }

  /** An invalid line is read, and the question is asked again with the next one. */
  lemma {:induction false} InvalidAskedAgain(input: seq<string>)
    requires |input| > 0 && Classify(input[0]) == Invalid
    ensures Ask(input) == match Ask(input[1..])
                          case None => None
                          case Some(r) => Some(Reply(r.yes, r.consumed + 1))
  {
    var k := FirstAnswer(input[1..]);
    assert FirstAnswer(input) == 1 + k;
    if k < |input[1..]| {
      assert input[1 + k] == input[1..][k];
    }
  }

  /** Input made only of invalid lines never gets an answer. */
  lemma {:induction false} NeverAnswered(input: seq<string>)
    requires forall j :: 0 <= j < |input| ==> Classify(input[j]) == Invalid
    ensures Ask(input) == None
  {
  }

  // ---------------------------------------------------------------------------
  // The latch

  /** mAlwaysOverwriteFiles is never cleared, and once set nothing is checked or asked. */
  lemma {:induction false} LatchStaysSet(present: bool, input: seq<string>)
    ensures Check(true, present, input) == Proceed(true, 0)
  {
  }

  /** The latch only goes from false to true, and only after the user was asked. */
  lemma {:induction false} LatchMonotone(latch: bool, present: bool, input: seq<string>)
    ensures Check(latch, present, input).Proceed? ==> (latch ==> Check(latch, present, input).latch)
    ensures Check(latch, present, input).Proceed? && Check(latch, present, input).latch && !latch ==>
              present && Check(latch, present, input).consumed > 0
  {
  }

  /** A destination that does not exist is written without a question and the latch is left alone. */
  lemma {:induction false} AbsentDestination(latch: bool, input: seq<string>)
    ensures Check(latch, false, input) == Proceed(latch, 0)
  {
  }

  /** create_file refuses only after the user answered no to an existing destination. */
  lemma {:induction false} RefusedOnlyOnNo(latch: bool, present: bool, input: seq<string>)
    ensures Check(latch, present, input).Refuse? <==>
              !latch && present && Ask(input).Some? && !Ask(input).value.yes
    ensures Check(latch, present, input).Waits? <==> !latch && present && Ask(input) == None
  {
  }

  /** After a yes the next existing destination is overwritten without a question. */
  lemma {:induction false} YesSilencesLaterQuestions(input: seq<string>, present: bool)
    requires Ask(input).Some? && Ask(input).value.yes
    ensures Check(false, true, input) == Proceed(true, Ask(input).value.consumed)
    ensures Check(true, present, input[Ask(input).value.consumed..]) == Proceed(true, 0)
  {
  }

  /** After a no the latch stays clear, so the next existing destination is asked about again. */
  lemma {:induction false} NoAsksAgain(input: seq<string>)
    requires Ask(input).Some? && !Ask(input).value.yes
    ensures Check(false, true, input) == Refuse(Ask(input).value.consumed)
    ensures Check(false, true, input[Ask(input).value.consumed..]) ==
            match Ask(input[Ask(input).value.consumed..])
            case None => Waits
            case Some(r) => if r.yes then Proceed(true, r.consumed) else Refuse(r.consumed)
  {
  }
}
