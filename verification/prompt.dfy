/**
  Standard input as a scripted sequence of lines. Both prompts of the program
  (the y/n question and the folder description) read from the same script;
  running out of lines is the `EOFError` that `input()` raises.
 */
module Prompt {
  import opened Text
  import opened Optional

  /** One line read by `input()`, and the script that is left. */
  datatype Line = Line(text: string, rest: seq<string>)

  /** The answer of `continue_running`, and the script that is left. */
  datatype Reply = Reply(proceed: bool, rest: seq<string>)

  /** `rest` is what is left of `inputs` after some lines were consumed. */
  predicate IsSuffix(rest: seq<string>, inputs: seq<string>)
  {
    |rest| <= |inputs| && rest == inputs[|inputs| - |rest|..]
  }

  lemma SuffixTransitive(c: seq<string>, b: seq<string>, a: seq<string>)
    requires IsSuffix(c, b) && IsSuffix(b, a)
    ensures IsSuffix(c, a)
  {
    assert a[|a| - |b|..][|b| - |c|..] == a[|a| - |c|..];
  }

  /** The `input()` call: the next line, or nothing when the script is exhausted. */
  function ReadLine(inputs: seq<string>): (r: Option<Line>)
    ensures r.Some? <==> |inputs| > 0
    ensures r.Some? ==> r.value.text == inputs[0] && IsSuffix(r.value.rest, inputs)
                        && |r.value.rest| == |inputs| - 1
  {
    if |inputs| == 0 then None else Some(Line(inputs[0], inputs[1..]))
  }

  /** A response the y/n loop accepts: a single character that lower-cases to 'y' or 'n'. */
  predicate Decisive(response: string)
  {
    |response| == 1 && (LowerChar(response[0]) == 'y' || LowerChar(response[0]) == 'n')
  }

  /** An accepted response that means "no". */
  predicate Declines(response: string)
  {
    |response| == 1 && LowerChar(response[0]) == 'n'
  }

  /** The character tests above are the membership test `response.lower() in ["y", "n"]`. */
  lemma DecisiveIsLowerYesOrNo(response: string)
    ensures Decisive(response) <==> (Lower(response) == "y" || Lower(response) == "n")
    ensures Declines(response) <==> Lower(response) == "n"
  {
    if |response| == 1 {
      assert Lower(response) == [LowerChar(response[0])];
    } else {
      assert |Lower(response)| != 1;
    }
  }

  /** The `k`th response is the first one the y/n loop accepts. */
  predicate FirstDecisiveAt(inputs: seq<string>, k: int)
  {
    0 <= k < |inputs| && Decisive(inputs[k]) && forall j :: 0 <= j < k ==> !Decisive(inputs[j])
  }

  /**
    `continue_running`: keep reading until a response lower-cases to "y" or
    "n"; the answer is false exactly when it is "n". The lines after the
    accepted response are left unread.
   */
  function ContinueRunning(inputs: seq<string>): (r: Option<Reply>)
    decreases |inputs|
    ensures r.None? <==> forall k :: 0 <= k < |inputs| ==> !Decisive(inputs[k])
    ensures r.Some? ==> IsSuffix(r.value.rest, inputs) && |r.value.rest| < |inputs|
    ensures r.Some? ==>
              var k := |inputs| - |r.value.rest| - 1;
              FirstDecisiveAt(inputs, k) && r.value.proceed == !Declines(inputs[k])
  {
    if |inputs| == 0 then None
    else if Decisive(inputs[0]) then
      assert FirstDecisiveAt(inputs, 0);
      Some(Reply(!Declines(inputs[0]), inputs[1..]))
    else
      var r := ContinueRunning(inputs[1..]);
      NoDecisiveShift(inputs);
      if r.Some? then
        DecisiveShift(inputs, r.value.rest);
        r
      else
        r
  }

  /** After an undecisive first response, the responses left are decisive exactly when those after it are. */
  lemma NoDecisiveShift(inputs: seq<string>)
    requires |inputs| > 0 && !Decisive(inputs[0])
    ensures (forall k :: 0 <= k < |inputs| ==> !Decisive(inputs[k]))
            <==> (forall k :: 0 <= k < |inputs[1..]| ==> !Decisive(inputs[1..][k]))
  {
    if forall k :: 0 <= k < |inputs[1..]| ==> !Decisive(inputs[1..][k]) {
      forall k | 0 <= k < |inputs| ensures !Decisive(inputs[k]) {
        if k > 0 { assert inputs[k] == inputs[1..][k - 1]; }
      }
    }
  }

  /** The first decisive response after an undecisive one is the first decisive response overall. */
  lemma DecisiveShift(inputs: seq<string>, rest: seq<string>)
    requires |inputs| > 0 && !Decisive(inputs[0])
    requires IsSuffix(rest, inputs[1..]) && |rest| < |inputs| - 1
    requires FirstDecisiveAt(inputs[1..], |inputs| - 1 - |rest| - 1)
    ensures IsSuffix(rest, inputs) && |rest| < |inputs|
    ensures FirstDecisiveAt(inputs, |inputs| - |rest| - 1)
  {
    var tail := inputs[1..];
    var k := |tail| - |rest| - 1;
    assert tail[|tail| - |rest|..] == inputs[|inputs| - |rest|..];
    assert inputs[k + 1] == tail[k];
    forall j | 0 <= j < k + 1 ensures !Decisive(inputs[j]) {
      if j > 0 { assert inputs[j] == tail[j - 1]; }
    }
  }

  /** Only the first decisive response matters: junk before it is skipped, lines after it are left unread. */
  lemma {:induction false} JunkIsSkipped(junk: seq<string>, answer: string, later: seq<string>)
    requires forall k :: 0 <= k < |junk| ==> !Decisive(junk[k])
    requires Lower(answer) == "y" || Lower(answer) == "n"
    ensures ContinueRunning(junk + [answer] + later)
            == Some(Reply(Lower(answer) != "n", later))
  {
    DecisiveIsLowerYesOrNo(answer);
    if |junk| == 0 {
      assert junk + [answer] + later == [answer] + later;
    } else {
      assert (junk + [answer] + later)[1..] == junk[1..] + [answer] + later;
      JunkIsSkipped(junk[1..], answer, later);
    }
  }
}
